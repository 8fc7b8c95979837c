/**
 * The last part of `execute_core_logic`: the daily consumption rows are
 * joined to the yearly limit rows, a running sum is taken per child and
 * consumption period in date order, the day on which the running sum reaches
 * the limit keeps only what is left of the limit, later days get nothing,
 * and only the values that differ from a previously calculated one are
 * emitted.
 *
 * Quantities are integers in thousandths of a kWh; the limit is exact.
 */
module Capping {
  import opened Wrappers
  import opened Calendar
  import opened Sequences
  import opened PeriodLimits
  import opened DailyConsumption

  /** A row of `join_consumption_to_metering_points`. */
  datatype JoinedRow = JoinedRow(
    consumptionPeriodStart: Instant,
    consumptionPeriodEnd: Instant,
    meteringPointId: string,
    date: Instant,
    quantity: int,
    periodConsumptionLimit: real,
    previouslyCalculatedQuantity: Option<int>)

  /** A row of `period_consumption`: a joined row with its running sum. */
  datatype PeriodConsumptionRow = PeriodConsumptionRow(
    cumulativeQuantity: int,
    meteringPointId: string,
    date: Instant,
    quantity: int,
    periodConsumptionLimit: real,
    previouslyCalculatedQuantity: Option<int>)

  /** A row of `period_consumption_with_limit`: the quantity is the capped one. */
  datatype CappedRow = CappedRow(
    quantity: int,
    cumulativeQuantity: int,
    meteringPointId: string,
    date: Instant,
    periodConsumptionLimit: real,
    previouslyCalculatedQuantity: Option<int>)

  /** A calculated daily measurement of an electrical-heating child. */
  datatype Measurement = Measurement(meteringPointId: string, date: Instant, quantity: int)

  // ---------------------------------------------------------------------
  // Joining consumption to the limit rows
  // ---------------------------------------------------------------------

  /** The limit row's overlap holds the day, and the day lies in the row's year. */
  predicate CoversDate(l: LimitRow, date: Instant) {
    l.period.overlapStart <= date < l.period.overlapEnd && Year(date) == Year(l.period.periodYear)
  }

  /** The join condition as written: the consumption row is the parent's and the limit row covers its day. */
  predicate MatchesAsWritten(c: ConsumptionRow, l: LimitRow) {
    c.meteringPointId == l.period.consumptionMeteringPointId && CoversDate(l, c.date)
  }

  /** The join condition that also requires the consumption row to be tagged with the limit row's child. */
  predicate Matches(c: ConsumptionRow, l: LimitRow) {
    MatchesAsWritten(c, l) && c.childMeteringPointId == Some(l.period.childMeteringPointId)
  }

  function JoinedOf(c: ConsumptionRow, l: LimitRow): JoinedRow {
    JoinedRow(
      l.period.consumptionPeriodStart, l.period.consumptionPeriodEnd,
      l.period.childMeteringPointId,
      c.date, c.quantity,
      l.periodConsumptionLimit,
      c.previouslyCalculatedQuantity)
  }

  /** The limit rows one consumption row joins with. */
  function MatchingLimits(c: ConsumptionRow, limits: seq<LimitRow>, matches: (ConsumptionRow, LimitRow) -> bool): (r: seq<LimitRow>)
    ensures forall l :: l in r <==> l in limits && matches(c, l)
    ensures Distinct(limits) ==> Distinct(r)
  {
    var r := Filter(limits, (l: LimitRow) => matches(c, l));
    assert Distinct(limits) ==> Distinct(r) by {
      if Distinct(limits) {
        FilterDistinct(limits, (l: LimitRow) => matches(c, l));
      }
    }
    r
  }

  /** An inner join of the consumption rows with the limit rows on a condition. */
  function JoinWith(consumption: seq<ConsumptionRow>, limits: seq<LimitRow>, matches: (ConsumptionRow, LimitRow) -> bool): (r: seq<JoinedRow>)
    ensures forall j :: j in r <==> exists c, l :: c in consumption && l in limits && matches(c, l) && j == JoinedOf(c, l)
  {
    FlatMap(consumption, (c: ConsumptionRow) => Map(MatchingLimits(c, limits, matches), (l: LimitRow) => JoinedOf(c, l)))
  }

  /** `join_consumption_to_metering_points` as written: joined on the parent id alone. */
  function JoinMeteringPointsAsWritten(consumption: seq<ConsumptionRow>, limits: seq<LimitRow>): (r: seq<JoinedRow>)
    ensures forall j :: j in r <==> exists c, l ::
      && c in consumption && l in limits
      && c.meteringPointId == l.period.consumptionMeteringPointId
      && CoversDate(l, c.date)
      && j == JoinedOf(c, l)
  {
    JoinWith(consumption, limits, MatchesAsWritten)
  }

  /** `join_consumption_to_metering_points` joined on the parent id and the child id. */
  function JoinMeteringPoints(consumption: seq<ConsumptionRow>, limits: seq<LimitRow>): (r: seq<JoinedRow>)
    ensures forall j :: j in r <==> exists c, l ::
      && c in consumption && l in limits
      && c.meteringPointId == l.period.consumptionMeteringPointId
      && c.childMeteringPointId == Some(l.period.childMeteringPointId)
      && CoversDate(l, c.date)
      && j == JoinedOf(c, l)
  {
    JoinWith(consumption, limits, Matches)
  }

  /** The corrected join keeps a subset of the rows of the join as written. */
  lemma CorrectedJoinWithinAsWritten(consumption: seq<ConsumptionRow>, limits: seq<LimitRow>)
    ensures forall j :: j in JoinMeteringPoints(consumption, limits) ==> j in JoinMeteringPointsAsWritten(consumption, limits)
  {
  }

  /** No two joined rows are for the same child on the same day. */
  predicate OneRowPerChildDay(rows: seq<JoinedRow>) {
    forall a, b :: 0 <= a < b < |rows| ==> rows[a].meteringPointId != rows[b].meteringPointId || rows[a].date != rows[b].date
  }

  /** At most one consumption row per parent, child and day. */
  predicate OneConsumptionRowPerKey(consumption: seq<ConsumptionRow>) {
    && Distinct(consumption)
    && forall c1, c2 ::
      c1 in consumption && c2 in consumption
      && c1.meteringPointId == c2.meteringPointId && c1.childMeteringPointId == c2.childMeteringPointId && c1.date == c2.date
      ==> c1 == c2
  }

  /** At most one limit row of a child covers any given day. */
  ghost predicate OneLimitRowPerChildDay(limits: seq<LimitRow>) {
    && Distinct(limits)
    && forall l1, l2, d ::
      l1 in limits && l2 in limits && l1.period.childMeteringPointId == l2.period.childMeteringPointId
      && CoversDate(l1, d) && CoversDate(l2, d)
      ==> l1 == l2
  }

  /**
   * Joined on both ids, a child gets at most one row per day, provided the
   * consumption has one row per parent, child and day and no two limit rows
   * of the child cover the same day.
   */
  lemma {:induction false} JoinOneRowPerChildDay(consumption: seq<ConsumptionRow>, limits: seq<LimitRow>)
    requires OneConsumptionRowPerKey(consumption) && OneLimitRowPerChildDay(limits)
    ensures OneRowPerChildDay(JoinMeteringPoints(consumption, limits))
  {
    if consumption != [] {
      var c := consumption[0];
      var rest := consumption[1..];
      assert OneConsumptionRowPerKey(rest) by {
        forall a, b | 0 <= a < b < |rest| ensures rest[a] != rest[b] {
          assert consumption[a + 1] != consumption[b + 1];
        }
      }
      assert c !in rest by {
        forall x | x in rest ensures x != c {
          var i :| 0 <= i < |rest| && rest[i] == x;
          assert consumption[i + 1] != consumption[0];
        }
      }
      JoinOneRowPerChildDay(rest, limits);
      var matching := MatchingLimits(c, limits, Matches);
      var head := Map(matching, (l: LimitRow) => JoinedOf(c, l));
      var tail := JoinMeteringPoints(rest, limits);
      assert JoinMeteringPoints(consumption, limits) == head + tail;
      MatchingAtMostOne(c, limits);
      if head != [] {
        CrossKeys(c, rest, limits, matching[0]);
      }
      OneRowPerChildDayAppend(head, tail);
    }
  }

  /** A consumption row joins with at most one limit row when no two limit rows of a child cover the same day. */
  lemma MatchingAtMostOne(c: ConsumptionRow, limits: seq<LimitRow>)
    requires OneLimitRowPerChildDay(limits)
    ensures |MatchingLimits(c, limits, Matches)| <= 1
  {
    var matching := MatchingLimits(c, limits, Matches);
    assert |matching| >= 2 ==> matching[0] in matching && matching[1] in matching && matching[0] == matching[1];
  }

  /** The row a consumption row joins to differs in child or day from every row the other consumption rows join to. */
  lemma CrossKeys(c: ConsumptionRow, rest: seq<ConsumptionRow>, limits: seq<LimitRow>, l: LimitRow)
    requires OneConsumptionRowPerKey([c] + rest) && OneLimitRowPerChildDay(limits)
    requires c !in rest && l in limits && Matches(c, l)
    ensures forall k :: k in JoinMeteringPoints(rest, limits) ==>
      k.meteringPointId != l.period.childMeteringPointId || k.date != c.date
  {
    forall k | k in JoinMeteringPoints(rest, limits)
      ensures k.meteringPointId != l.period.childMeteringPointId || k.date != c.date
    {
      var c', l' :| c' in rest && l' in limits && Matches(c', l') && k == JoinedOf(c', l');
      assert c' in [c] + rest && c in [c] + rest;
      assert c' != c;
    }
  }

  lemma OneRowPerChildDayAppend(head: seq<JoinedRow>, tail: seq<JoinedRow>)
    requires |head| <= 1 && OneRowPerChildDay(tail)
    requires forall k :: k in tail ==> forall j :: j in head ==> j.meteringPointId != k.meteringPointId || j.date != k.date
    ensures OneRowPerChildDay(head + tail)
  {
    var rows := head + tail;
    forall a, b | 0 <= a < b < |rows| ensures rows[a].meteringPointId != rows[b].meteringPointId || rows[a].date != rows[b].date {
      if a < |head| {
        assert rows[a] in head && rows[b] == tail[b - |head|];
      } else {
        assert rows[a] == tail[a - |head|] && rows[b] == tail[b - |head|];
      }
    }
  }

  // ---------------------------------------------------------------------
  // Running sum per child and consumption period
  // ---------------------------------------------------------------------

  /** Two joined rows fall in the same window partition. */
  predicate SamePartition(a: JoinedRow, b: JoinedRow) {
    a.meteringPointId == b.meteringPointId
    && a.consumptionPeriodStart == b.consumptionPeriodStart
    && a.consumptionPeriodEnd == b.consumptionPeriodEnd
  }

  /** Row `j` is at or before row `i` in the window order: by date, rows on the same date in input order. */
  predicate NotAfter(rows: seq<JoinedRow>, j: nat, i: nat)
    requires j < |rows| && i < |rows|
  {
    rows[j].date < rows[i].date || (rows[j].date == rows[i].date && j <= i)
  }

  /** The quantities of the rows before index `n` that count towards row `i`'s running sum. */
  function RunningSumBelow(rows: seq<JoinedRow>, i: nat, n: nat): int
    requires i < |rows| && n <= |rows|
  {
    if n == 0 then 0
    else
      var j := n - 1;
      RunningSumBelow(rows, i, j) + (if SamePartition(rows[j], rows[i]) && NotAfter(rows, j, i) then rows[j].quantity else 0)
  }

  /** `F.sum("quantity").over(period_window)`: every row of its partition up to and including it. */
  function CumulativeQuantity(rows: seq<JoinedRow>, i: nat): int
    requires i < |rows|
  {
    RunningSumBelow(rows, i, |rows|)
  }

  function WithCumulative(rows: seq<JoinedRow>, i: nat): PeriodConsumptionRow
    requires i < |rows|
  {
    var r := rows[i];
    PeriodConsumptionRow(CumulativeQuantity(rows, i), r.meteringPointId, r.date, r.quantity, r.periodConsumptionLimit, r.previouslyCalculatedQuantity)
  }

  /** `period_consumption`: each row with its running sum, duplicates dropped. */
  function PeriodConsumption(rows: seq<JoinedRow>): (r: seq<PeriodConsumptionRow>)
    ensures Distinct(r)
    ensures forall p :: p in r <==> exists i :: 0 <= i < |rows| && p == WithCumulative(rows, i)
  {
    var all := seq(|rows|, (i: int) requires 0 <= i < |rows| => WithCumulative(rows, i));
    assert forall i :: 0 <= i < |rows| ==> all[i] == WithCumulative(rows, i);
    Dedup(all)
  }

  // ---------------------------------------------------------------------
  // Capping
  // ---------------------------------------------------------------------

  /** `.cast(DecimalType(38, 3))` of a value in thousandths: to the nearest integer, halves away from zero. */
  function RoundHalfUp(x: real): (r: int)
    ensures x >= 0.0 ==> r as real - 0.5 <= x < r as real + 0.5
    ensures x < 0.0 ==> r as real - 0.5 < x <= r as real + 0.5
  {
    if x >= 0.0 then (x + 0.5).Floor else -((-x + 0.5).Floor)
  }

  /**
   * The `F.when` chain of `period_consumption_with_limit`: on the day the
   * running sum reaches the limit, what is left of the limit; after that,
   * nothing; before, the day's own quantity.
   */
  function CappedValue(cumulative: int, quantity: int, limit: real): (r: real)
    ensures quantity >= 0 ==> 0.0 <= r <= quantity as real
  {
    if cumulative as real >= limit && ((cumulative - quantity) as real) < limit then limit + (quantity as real) - (cumulative as real)
    else if cumulative as real > limit then 0.0
    else quantity as real
  }

  function CappedQuantity(cumulative: int, quantity: int, limit: real): int {
    RoundHalfUp(CappedValue(cumulative, quantity, limit))
  }

  lemma RoundBetween(l: real, n: int)
    requires l >= 0.0
    ensures n as real >= l ==> n >= RoundHalfUp(l)
    ensures n as real <= l ==> n <= RoundHalfUp(l)
  {
  }

  lemma RoundShift(l: real, k: int)
    requires l >= 0.0 && l + k as real > 0.0
    ensures RoundHalfUp(l + k as real) == RoundHalfUp(l) + k
  {
  }

  lemma RoundInt(q: int)
    ensures RoundHalfUp(q as real) == q
  {
  }

  /**
   * A day's capped quantity is what its running sum adds below the rounded
   * limit: the part of [running sum before the day, running sum after it]
   * that lies under the limit.
   */
  lemma CappedIsHeadroomUsed(cumulative: int, quantity: int, limit: real)
    requires quantity >= 0 && limit >= 0.0
    ensures CappedQuantity(cumulative, quantity, limit)
      == Min(cumulative, RoundHalfUp(limit)) - Min(cumulative - quantity, RoundHalfUp(limit))
  {
    RoundBetween(limit, cumulative);
    RoundBetween(limit, cumulative - quantity);
    if cumulative as real >= limit && ((cumulative - quantity) as real) < limit {
      RoundShift(limit, quantity - cumulative);
      assert limit + (quantity as real) - (cumulative as real) == limit + (quantity - cumulative) as real;
    } else if cumulative as real > limit {
      RoundInt(0);
    } else {
      RoundInt(quantity);
    }
  }

  /** A capped quantity lies between nothing and the day's own quantity. */
  lemma CappedBounds(cumulative: int, quantity: int, limit: real)
    requires quantity >= 0 && limit >= 0.0
    ensures 0 <= CappedQuantity(cumulative, quantity, limit) <= quantity
  {
    CappedIsHeadroomUsed(cumulative, quantity, limit);
  }

  function CapRow(r: PeriodConsumptionRow): CappedRow {
    CappedRow(
      CappedQuantity(r.cumulativeQuantity, r.quantity, r.periodConsumptionLimit),
      r.cumulativeQuantity, r.meteringPointId, r.date, r.periodConsumptionLimit, r.previouslyCalculatedQuantity)
  }

  /** `period_consumption_with_limit`: every row capped, duplicates dropped. */
  function PeriodConsumptionWithLimit(rows: seq<PeriodConsumptionRow>): (r: seq<CappedRow>)
    ensures Distinct(r)
    ensures forall c :: c in r <==> exists p :: p in rows && c == CapRow(p)
  {
    Dedup(Map(rows, CapRow))
  }

  // ---------------------------------------------------------------------
  // The window over the whole joined table
  // ---------------------------------------------------------------------

  /** No two rows of one window partition fall on the same day. */
  predicate PartitionDatesDistinct(rows: seq<JoinedRow>) {
    forall a, b :: 0 <= a < b < |rows| && SamePartition(rows[a], rows[b]) ==> rows[a].date != rows[b].date
  }

  function InPartition(k: JoinedRow): JoinedRow -> bool {
    (x: JoinedRow) => SamePartition(x, k)
  }

  /** `Window.partitionBy(metering_point_id, consumption_period_start, consumption_period_end)`: the rows of `k`'s partition, in table order. */
  function PartitionOf(rows: seq<JoinedRow>, k: JoinedRow): (r: seq<JoinedRow>)
    ensures forall x :: x in r <==> x in rows && SamePartition(x, k)
  {
    Filter(rows, InPartition(k))
  }

  function JoinedQuantity(x: JoinedRow): int {
    x.quantity
  }

  /** A row's quantity when it falls on or before day `d`, and nothing otherwise. */
  function QuantityUpTo(d: Instant): JoinedRow -> int {
    (x: JoinedRow) => if x.date <= d then x.quantity else 0
  }

  /** The consumption of the rows of `ps` up to and including day `d`. */
  function TotalUpTo(ps: seq<JoinedRow>, d: Instant): int {
    Sum(ps, QuantityUpTo(d))
  }

  /** The running sum over the first `n` rows of the table is what they add to row `i`'s partition up to its day. */
  lemma {:induction false} RunningSumBelowIsPartitionTotal(rows: seq<JoinedRow>, i: nat, n: nat, g: JoinedRow -> int)
    requires PartitionDatesDistinct(rows)
    requires i < |rows| && n <= |rows|
    requires forall x :: g(x) == if SamePartition(x, rows[i]) && x.date <= rows[i].date then x.quantity else 0
    ensures RunningSumBelow(rows, i, n) == Sum(rows[..n], g)
  {
    if n > 0 {
      var j := n - 1;
      RunningSumBelowIsPartitionTotal(rows, i, j, g);
      assert rows[..n] == rows[..j] + [rows[j]];
      SumAppend(rows[..j], [rows[j]], g);
      if j != i && SamePartition(rows[j], rows[i]) {
        assert rows[j].date != rows[i].date by {
          if j < i {
            assert SamePartition(rows[j], rows[i]);
          } else {
            assert SamePartition(rows[i], rows[j]);
          }
        }
      }
    }
  }

  /**
   * `F.sum("quantity").over(period_window)` on the whole joined table, with
   * every child and yearly piece mixed together in any order: when no two
   * rows of a partition share a day, a row's running sum is the consumption
   * of its own partition up to and including its day.
   */
  lemma CumulativeIsPartitionTotal(rows: seq<JoinedRow>, i: nat)
    requires PartitionDatesDistinct(rows)
    requires i < |rows|
    ensures CumulativeQuantity(rows, i) == TotalUpTo(PartitionOf(rows, rows[i]), rows[i].date)
  {
    var k := rows[i];
    var g := (x: JoinedRow) => if SamePartition(x, k) && x.date <= k.date then x.quantity else 0;
    RunningSumBelowIsPartitionTotal(rows, i, |rows|, g);
    assert rows[..|rows|] == rows;
    SumFilter(rows, InPartition(k), QuantityUpTo(k.date), g);
  }

  /** The position of a latest row. */
  function Latest(ps: seq<JoinedRow>): (m: nat)
    requires ps != []
    ensures m < |ps|
    ensures forall j :: 0 <= j < |ps| ==> ps[j].date <= ps[m].date
  {
    if |ps| == 1 then 0
    else
      var m := Latest(ps[..|ps| - 1]);
      if ps[|ps| - 1].date > ps[m].date then |ps| - 1 else m
  }

  /** The capped value of a row of the partition `ps` with limit `limit`. */
  function CappedIn(ps: seq<JoinedRow>, limit: real, x: JoinedRow): int {
    CappedQuantity(TotalUpTo(ps, x.date), x.quantity, limit)
  }

  function CappedWithin(ps: seq<JoinedRow>, limit: real): JoinedRow -> int {
    (x: JoinedRow) => CappedIn(ps, limit, x)
  }

  /**
   * The capped values of a partition of non-negative daily quantities, no
   * two on the same day, add up to the smaller of its consumption and its
   * rounded limit, whatever order the rows come in.
   */
  lemma {:induction false} CappedWithinTotal(ps: seq<JoinedRow>, limit: real)
    requires forall a, b :: 0 <= a < b < |ps| ==> ps[a].date != ps[b].date
    requires forall x :: x in ps ==> x.quantity >= 0
    requires limit >= 0.0
    ensures Sum(ps, CappedWithin(ps, limit)) == Min(Sum(ps, JoinedQuantity), RoundHalfUp(limit))
    decreases |ps|
  {
    if ps != [] {
      var m := Latest(ps);
      var rest := ps[..m] + ps[m + 1..];
      WithoutLatest(ps, m);
      CappedWithinTotal(rest, limit);
      SumRemove(ps, m, CappedWithin(ps, limit));
      SumRemove(ps, m, JoinedQuantity);
      CappedLatest(ps, m, limit);
      CappedWithoutLatest(ps, m, limit);
    }
  }

  /** Taking out a latest row of a partition leaves rows on distinct days, all before it. */
  lemma WithoutLatest(ps: seq<JoinedRow>, m: nat)
    requires forall a, b :: 0 <= a < b < |ps| ==> ps[a].date != ps[b].date
    requires m < |ps| && forall j :: 0 <= j < |ps| ==> ps[j].date <= ps[m].date
    ensures var rest := ps[..m] + ps[m + 1..];
      && (forall a, b :: 0 <= a < b < |rest| ==> rest[a].date != rest[b].date)
      && (forall x :: x in rest ==> x in ps && x.date < ps[m].date)
  {
    var rest := ps[..m] + ps[m + 1..];
    assert forall j :: 0 <= j < |rest| ==> rest[j] == if j < m then ps[j] else ps[j + 1];
    forall a, b | 0 <= a < b < |rest| ensures rest[a].date != rest[b].date {
      var a', b' := if a < m then a else a + 1, if b < m then b else b + 1;
      assert rest[a] == ps[a'] && rest[b] == ps[b'] && a' < b';
    }
    forall x | x in rest ensures x in ps && x.date < ps[m].date {
      var j :| 0 <= j < |rest| && rest[j] == x;
      var j' := if j < m then j else j + 1;
      assert ps[j'] == x && j' != m;
      if j' < m {
        assert ps[j'].date != ps[m].date;
      } else {
        assert ps[m].date != ps[j'].date;
      }
    }
  }

  /** The latest row's running total is the whole consumption of the partition. */
  lemma CappedLatest(ps: seq<JoinedRow>, m: nat, limit: real)
    requires m < |ps| && forall j :: 0 <= j < |ps| ==> ps[j].date <= ps[m].date
    requires ps[m].quantity >= 0 && limit >= 0.0
    ensures CappedWithin(ps, limit)(ps[m])
      == Min(Sum(ps, JoinedQuantity), RoundHalfUp(limit)) - Min(Sum(ps, JoinedQuantity) - ps[m].quantity, RoundHalfUp(limit))
  {
    forall x | x in ps ensures QuantityUpTo(ps[m].date)(x) == JoinedQuantity(x) {
      var j :| 0 <= j < |ps| && ps[j] == x;
    }
    SumCongruent(ps, QuantityUpTo(ps[m].date), JoinedQuantity);
    assert CappedWithin(ps, limit)(ps[m]) == CappedQuantity(Sum(ps, JoinedQuantity), ps[m].quantity, limit);
    CappedIsHeadroomUsed(Sum(ps, JoinedQuantity), ps[m].quantity, limit);
  }

  /** The rows before the latest one have the same running totals with or without it. */
  lemma CappedWithoutLatest(ps: seq<JoinedRow>, m: nat, limit: real)
    requires m < |ps|
    requires forall x :: x in ps[..m] + ps[m + 1..] ==> x.date < ps[m].date
    ensures Sum(ps[..m] + ps[m + 1..], CappedWithin(ps, limit)) == Sum(ps[..m] + ps[m + 1..], CappedWithin(ps[..m] + ps[m + 1..], limit))
  {
    var rest := ps[..m] + ps[m + 1..];
    forall x | x in rest ensures CappedWithin(ps, limit)(x) == CappedWithin(rest, limit)(x) {
      SumRemove(ps, m, QuantityUpTo(x.date));
      assert TotalUpTo(ps, x.date) == TotalUpTo(rest, x.date);
    }
    SumCongruent(rest, CappedWithin(ps, limit), CappedWithin(rest, limit));
  }

  /** The value the window and the capping give a row of the table: its partition's running total up to its day, capped at its limit. */
  function WindowCapped(rows: seq<JoinedRow>): JoinedRow -> int {
    (x: JoinedRow) => CappedIn(PartitionOf(rows, x), x.periodConsumptionLimit, x)
  }

  /** The capping of `period_consumption_with_limit` gives each row of the table `WindowCapped`. */
  lemma WindowCapsWithinPartition(rows: seq<JoinedRow>, i: nat)
    requires PartitionDatesDistinct(rows)
    requires i < |rows|
    ensures CapRow(WithCumulative(rows, i)).quantity == WindowCapped(rows)(rows[i])
  {
    CumulativeIsPartitionTotal(rows, i);
    assert WindowCapped(rows)(rows[i]) == CappedIn(PartitionOf(rows, rows[i]), rows[i].periodConsumptionLimit, rows[i]);
  }

  /**
   * Every window partition of the joined table is capped as a whole: when
   * no two of its rows share a day, its quantities are non-negative and its
   * rows carry one limit, the capped values of its rows add up to the
   * smaller of its consumption and its rounded limit.
   */
  lemma PartitionCappingTotal(rows: seq<JoinedRow>, k: JoinedRow)
    requires PartitionDatesDistinct(rows)
    requires forall x :: x in rows && SamePartition(x, k) ==> x.quantity >= 0 && x.periodConsumptionLimit == k.periodConsumptionLimit
    requires k.periodConsumptionLimit >= 0.0
    ensures Sum(PartitionOf(rows, k), WindowCapped(rows))
      == Min(Sum(PartitionOf(rows, k), JoinedQuantity), RoundHalfUp(k.periodConsumptionLimit))
  {
    var ps := PartitionOf(rows, k);
    var limit := k.periodConsumptionLimit;
    forall x | x in ps ensures WindowCapped(rows)(x) == CappedWithin(ps, limit)(x) {
      FilterCongruent(rows, InPartition(x), InPartition(k));
      assert WindowCapped(rows)(x) == CappedIn(PartitionOf(rows, x), x.periodConsumptionLimit, x);
    }
    SumCongruent(ps, WindowCapped(rows), CappedWithin(ps, limit));
    FilterPairwise(rows, InPartition(k), (a: JoinedRow, b: JoinedRow) => a.date != b.date);
    CappedWithinTotal(ps, limit);
  }

  /**
   * With one row per child and day, neither `drop_duplicates` merges two
   * rows: the capped table holds one row per joined row, in order, and
   * every partition has distinct days.
   */
  lemma WindowKeepsEveryRow(rows: seq<JoinedRow>)
    requires OneRowPerChildDay(rows)
    ensures PartitionDatesDistinct(rows)
    ensures |PeriodConsumptionWithLimit(PeriodConsumption(rows))| == |rows|
    ensures forall i :: 0 <= i < |rows| ==> PeriodConsumptionWithLimit(PeriodConsumption(rows))[i] == CapRow(WithCumulative(rows, i))
  {
    PeriodConsumptionKeepsEveryRow(rows);
    CappingKeepsEveryRow(PeriodConsumption(rows));
  }

  /** Rows with distinct children or days all survive the `drop_duplicates` of `period_consumption`. */
  lemma PeriodConsumptionKeepsEveryRow(rows: seq<JoinedRow>)
    requires OneRowPerChildDay(rows)
    ensures |PeriodConsumption(rows)| == |rows|
    ensures forall i :: 0 <= i < |rows| ==> PeriodConsumption(rows)[i] == WithCumulative(rows, i)
    ensures forall a, b :: 0 <= a < b < |rows| ==>
      PeriodConsumption(rows)[a].meteringPointId != PeriodConsumption(rows)[b].meteringPointId
      || PeriodConsumption(rows)[a].date != PeriodConsumption(rows)[b].date
  {
    var all := seq(|rows|, (i: int) requires 0 <= i < |rows| => WithCumulative(rows, i));
    assert forall i :: 0 <= i < |rows| ==> all[i].meteringPointId == rows[i].meteringPointId && all[i].date == rows[i].date;
    assert Distinct(all) by {
      forall a, b | 0 <= a < b < |all| ensures all[a] != all[b] {
        assert rows[a].meteringPointId != rows[b].meteringPointId || rows[a].date != rows[b].date;
      }
    }
    DedupOfDistinct(all);
  }

  /** Rows with distinct children or days all survive the `drop_duplicates` of `period_consumption_with_limit`. */
  lemma CappingKeepsEveryRow(pcs: seq<PeriodConsumptionRow>)
    requires forall a, b :: 0 <= a < b < |pcs| ==> pcs[a].meteringPointId != pcs[b].meteringPointId || pcs[a].date != pcs[b].date
    ensures PeriodConsumptionWithLimit(pcs) == Map(pcs, CapRow)
  {
    var capped := Map(pcs, CapRow);
    assert forall i :: 0 <= i < |capped| ==> capped[i].meteringPointId == pcs[i].meteringPointId && capped[i].date == pcs[i].date;
    DedupOfDistinct(capped);
  }

  // ---------------------------------------------------------------------
  // Change filter
  // ---------------------------------------------------------------------

  /** `(quantity != previously_calculated_quantity) | previously_calculated_quantity.isNull()`. */
  predicate Changed(c: CappedRow) {
    c.previouslyCalculatedQuantity.None? || c.quantity != c.previouslyCalculatedQuantity.value
  }

  function MeasurementOf(c: CappedRow): Measurement {
    Measurement(c.meteringPointId, c.date, c.quantity)
  }

  /**
   * `compare_previous_calculated_daily_consumption`: a capped day is emitted,
   * as child id, date and quantity, exactly when no value was calculated
   * before or the earlier value differs.
   */
  function CompareWithPrevious(rows: seq<CappedRow>): (r: seq<Measurement>)
    ensures forall m :: m in r <==> exists c ::
      c in rows && c.previouslyCalculatedQuantity != Some(c.quantity) && m == Measurement(c.meteringPointId, c.date, c.quantity)
  {
    Map(Filter(rows, Changed), MeasurementOf)
  }
}
