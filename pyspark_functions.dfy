/**
 * The column helpers of the electrical-heating domain: the beginning of a
 * year, the length of a year, and the conversion of every timestamp column of
 * a data frame between UTC and a local time zone.
 *
 * A data frame is modelled column by column, in schema order. The time zone
 * is a pair of functions on instants (the tz database itself is not part of
 * this model).
 */
module PysparkFunctions {
  import opened Wrappers
  import opened Calendar
  import opened Sequences

  // ---------------------------------------------------------------------
  // Dates
  // ---------------------------------------------------------------------

  /** `add_months(t, 12 * n)` for an instant at 1 January 00:00: the same
      moment `n` years later (1 January exists in every year, so nothing is
      clamped). */
  function AddYearsToYearStart(t: Instant, n: int): Instant {
    YearStart(Year(t) + n)
  }

  /**
   * `begining_of_year(date, years_to_add)`: 1 January 00:00 of the year of
   * `date`, moved `years_to_add` years on when that is positive; a missing
   * date gives a missing result.
   */
  function BeginningOfYear(date: Option<Instant>, yearsToAdd: int): (r: Option<Instant>)
    ensures r.Some? <==> date.Some?
    ensures date.Some? ==>
      && Year(r.value) == Year(date.value) + (if yearsToAdd > 0 then yearsToAdd else 0)
      && IsYearStart(r.value)
    ensures date.Some? && yearsToAdd <= 0 ==> r.value <= date.value
  {
    match date
    case None => None
    case Some(t) =>
      StartOfYearPlus(t, yearsToAdd);
      Some(StartOfYearPlusValue(t, yearsToAdd))
  }

  /** `date_trunc("year", t)`, then `add_months` of twelve months per year to add when that is positive. */
  function StartOfYearPlusValue(t: Instant, yearsToAdd: int): Instant {
    var startOfYear := YearStart(Year(t));
    if yearsToAdd > 0 then AddYearsToYearStart(startOfYear, yearsToAdd) else startOfYear
  }

  lemma StartOfYearPlus(t: Instant, yearsToAdd: int)
    ensures Year(StartOfYearPlusValue(t, yearsToAdd)) == Year(t) + (if yearsToAdd > 0 then yearsToAdd else 0)
    ensures IsYearStart(StartOfYearPlusValue(t, yearsToAdd))
    ensures yearsToAdd <= 0 ==> StartOfYearPlusValue(t, yearsToAdd) <= t
  {
    var y := Year(t);
    YearStartFacts(y);
    YearContains(t);
    if yearsToAdd > 0 {
      YearStartFacts(y + yearsToAdd);
      assert AddYearsToYearStart(YearStart(y), yearsToAdd) == YearStart(y + yearsToAdd);
    }
  }

  /**
   * `days_in_year(t)`: the day of the year of the day before the next
   * 1 January, i.e. the number of days in the year of `t`.
   */
  function DaysInYearOf(t: Instant): (n: int)
    ensures n == DaysInYear(Year(t))
    ensures n == 366 <==> IsLeapYear(Year(t))
    ensures n == 365 <==> !IsLeapYear(Year(t))
  {
    var nextYear := BeginningOfYear(Some(t), 1).value;
    var lastDay := DayNumber(nextYear) - 1;
    Jan1Next(Year(t));
    YearOfUnique(lastDay, Year(t));
    DayOfYear(lastDay)
  }

  /** The beginning of a year is a fixed point of `begining_of_year`. */
  lemma BeginningOfYearIdempotent(t: Instant)
    ensures BeginningOfYear(BeginningOfYear(Some(t), 0), 0) == BeginningOfYear(Some(t), 0)
  {
    YearStartFacts(Year(t));
  }

  // ---------------------------------------------------------------------
  // Data frames and time-zone conversion
  // ---------------------------------------------------------------------

  datatype DataType = TimestampType | DateType | StringType | DecimalType(precision: nat, scale: nat)

  datatype Value = Null | TimestampValue(t: Instant) | StringValue(s: string) | DecimalValue(unscaled: int)

  datatype Column = Column(name: string, dataType: DataType, values: seq<Value>)

  /** A data frame: its columns in schema order. */
  type Frame = seq<Column>

  /** Why Spark refuses to resolve `F.col(name)`. */
  datatype AnalysisError = UnresolvedColumn(name: string) | AmbiguousReference(name: string)

  /** A time zone: the shift from UTC to local wall-clock time and back. */
  datatype TimeZone = TimeZone(fromUtc: Instant -> Instant, toUtc: Instant -> Instant)

  function Names(df: Frame): (names: seq<string>)
    ensures |names| == |df|
    ensures forall i :: 0 <= i < |df| ==> names[i] == df[i].name
  {
    if df == [] then [] else [df[0].name] + Names(df[1..])
  }

  /** No two columns share a name. */
  predicate DistinctNames(df: Frame) {
    forall i, j :: 0 <= i < j < |df| ==> df[i].name != df[j].name
  }

  /** No column is named like the temporary column of another one. */
  predicate NoTemporaryNameClash(df: Frame) {
    forall c, d :: c in df && d in df ==> d.name != c.name + "_tmp"
  }

  /** The columns that `F.col(name)` could refer to. */
  function ColumnsNamed(df: Frame, name: string): (r: Frame)
    ensures forall c :: c in r <==> c in df && c.name == name
  {
    if df == [] then []
    else if df[0].name == name then [df[0]] + ColumnsNamed(df[1..], name)
    else ColumnsNamed(df[1..], name)
  }

  /** `df.drop(name)`: every column of that name is removed. */
  function Drop(df: Frame, name: string): (r: Frame)
    ensures forall c :: c in r <==> c in df && c.name != name
  {
    if df == [] then []
    else if df[0].name == name then Drop(df[1..], name)
    else [df[0]] + Drop(df[1..], name)
  }

  /** `df.withColumnRenamed(existing, newName)`: every column of that name is renamed. */
  function WithColumnRenamed(df: Frame, existing: string, newName: string): (r: Frame)
    ensures |r| == |df|
    ensures forall i :: 0 <= i < |df| ==>
      r[i] == if df[i].name == existing then df[i].(name := newName) else df[i]
  {
    if df == [] then []
    else
      var head := if df[0].name == existing then df[0].(name := newName) else df[0];
      [head] + WithColumnRenamed(df[1..], existing, newName)
  }

  /** One conversion applied to every value of a column; a null stays null
      and a value that is not a timestamp casts to null. */
  function ConvertValues(values: seq<Value>, convert: Instant -> Instant): (r: seq<Value>)
    ensures |r| == |values|
    ensures forall i :: 0 <= i < |values| ==>
      r[i] == if values[i].TimestampValue? then TimestampValue(convert(values[i].t)) else Null
  {
    if values == [] then []
    else
      var head := if values[0].TimestampValue? then TimestampValue(convert(values[0].t)) else Null;
      [head] + ConvertValues(values[1..], convert)
  }

  /** A column after the conversion: same name, timestamp type, converted values. */
  function ConvertedColumn(c: Column, convert: Instant -> Instant): Column {
    Column(c.name, TimestampType, ConvertValues(c.values, convert))
  }

  /**
   * The shared shape of `convert_utc_to_localtime` and
   * `convert_localtime_to_utc`: select every column plus the converted column
   * under the name `<column>_tmp`, drop the original column and rename the
   * temporary one back. A name that matches no column, or more than one, is
   * an analysis error. On a frame whose names are distinct and free of
   * `_tmp` clashes, the result is the frame without that column, followed by
   * the converted column under its own name.
   */
  function ConvertColumn(df: Frame, timestampColumn: string, convert: Instant -> Instant): (r: Result<Frame, AnalysisError>)
    ensures ColumnsNamed(df, timestampColumn) == [] ==> r == Failure(UnresolvedColumn(timestampColumn))
    ensures |ColumnsNamed(df, timestampColumn)| > 1 ==> r == Failure(AmbiguousReference(timestampColumn))
    ensures ColumnsNamed(df, timestampColumn) != [] && DistinctNames(df) && NoTemporaryNameClash(df) ==>
      r == Success(Drop(df, timestampColumn) + [ConvertedColumn(ColumnsNamed(df, timestampColumn)[0], convert)])
  {
    ColumnsNamedAtMostOne(df, timestampColumn);
    ConvertColumnShape(df, timestampColumn, convert);
    var matching := ColumnsNamed(df, timestampColumn);
    if |matching| == 0 then Failure(UnresolvedColumn(timestampColumn))
    else if |matching| > 1 then Failure(AmbiguousReference(timestampColumn))
    else
      var tmp := timestampColumn + "_tmp";
      var selected := df + [TemporaryColumn(df, timestampColumn, convert)];
      Success(WithColumnRenamed(Drop(selected, timestampColumn), tmp, timestampColumn))
  }

  /** The column `select` adds: the converted values under `<column>_tmp`. */
  function TemporaryColumn(df: Frame, name: string, convert: Instant -> Instant): Column
    requires ColumnsNamed(df, name) != []
  {
    Column(name + "_tmp", TimestampType, ConvertValues(ColumnsNamed(df, name)[0].values, convert))
  }

  lemma ConvertColumnShape(df: Frame, name: string, convert: Instant -> Instant)
    ensures ColumnsNamed(df, name) != [] && NoTemporaryNameClash(df) ==>
      WithColumnRenamed(Drop(df + [TemporaryColumn(df, name, convert)], name), name + "_tmp", name)
        == Drop(df, name) + [ConvertedColumn(ColumnsNamed(df, name)[0], convert)]
  {
    if ColumnsNamed(df, name) != [] && NoTemporaryNameClash(df) {
      var tmp := name + "_tmp";
      var added := TemporaryColumn(df, name, convert);
      assert tmp != name by { assert |tmp| == |name| + 4; }
      DropAppend(df, [added], name);
      var c := ColumnsNamed(df, name)[0];
      assert c in df;
      var kept := Drop(df, name);
      assert forall d :: d in kept ==> d.name != tmp;
      RenameTemporary(kept, added, name);
    }
  }

  /** Renaming the temporary column back touches no other column. */
  lemma RenameTemporary(kept: Frame, added: Column, name: string)
    requires added.name == name + "_tmp"
    requires forall d :: d in kept ==> d.name != name + "_tmp"
    ensures WithColumnRenamed(kept + [added], name + "_tmp", name) == kept + [added.(name := name)]
  {
    var renamed := WithColumnRenamed(kept + [added], name + "_tmp", name);
    forall i | 0 <= i < |renamed|
      ensures renamed[i] == (kept + [added.(name := name)])[i]
    {
      if i < |kept| {
        assert (kept + [added])[i] == kept[i] && kept[i] in kept;
      }
    }
  }

  lemma DropAppend(a: Frame, b: Frame, name: string)
    ensures Drop(a + b, name) == Drop(a, name) + Drop(b, name)
  {
    if a == [] {
      assert a + b == b;
    } else {
      assert (a + b)[0] == a[0] && (a + b)[1..] == a[1..] + b;
      DropAppend(a[1..], b, name);
    }
  }

  lemma DropAbsent(df: Frame, name: string)
    requires forall c :: c in df ==> c.name != name
    ensures Drop(df, name) == df
  {
    if df != [] {
      DropAbsent(df[1..], name);
    }
  }

  lemma ColumnsNamedAppend(a: Frame, b: Frame, name: string)
    ensures ColumnsNamed(a + b, name) == ColumnsNamed(a, name) + ColumnsNamed(b, name)
  {
    if a == [] {
      assert a + b == b;
    } else {
      assert (a + b)[0] == a[0] && (a + b)[1..] == a[1..] + b;
      ColumnsNamedAppend(a[1..], b, name);
    }
  }

  lemma ColumnsNamedAtMostOne(df: Frame, name: string)
    ensures DistinctNames(df) && ColumnsNamed(df, name) != [] ==> ColumnsNamed(df, name) == [ColumnsNamed(df, name)[0]]
  {
    if DistinctNames(df) && ColumnsNamed(df, name) != [] {
      ColumnsNamedUnique(df, ColumnsNamed(df, name)[0]);
    }
  }

  /** A name that no column has resolves to nothing. */
  lemma ColumnsNamedNone(df: Frame, name: string)
    requires forall c :: c in df ==> c.name != name
    ensures ColumnsNamed(df, name) == []
  {
    if df != [] {
      ColumnsNamedNone(df[1..], name);
    }
  }

  /** In a frame with distinct names, a name resolves to the one column that has it. */
  lemma ColumnsNamedUnique(df: Frame, c: Column)
    requires DistinctNames(df) && c in df
    ensures ColumnsNamed(df, c.name) == [c]
  {
    if df[0] == c {
      assert forall d :: d in df[1..] ==> d.name != c.name by {
        forall d | d in df[1..] ensures d.name != c.name {
          var j :| 0 <= j < |df[1..]| && df[1..][j] == d;
          assert df[j + 1] == d;
        }
      }
      ColumnsNamedNone(df[1..], c.name);
    } else {
      assert df[0].name != c.name by {
        var j :| 0 <= j < |df| && df[j] == c;
        assert j != 0;
      }
      ColumnsNamedUnique(df[1..], c);
    }
  }

  // ---------------------------------------------------------------------
  // Timestamp columns
  // ---------------------------------------------------------------------

  predicate IsTimestampColumn(c: Column) {
    c.dataType == TimestampType
  }

  /** The timestamp-typed columns, in schema order. */
  function TimestampColumns(df: Frame): (r: Frame)
    ensures forall c :: c in r <==> c in df && IsTimestampColumn(c)
  {
    if df == [] then []
    else if IsTimestampColumn(df[0]) then [df[0]] + TimestampColumns(df[1..])
    else TimestampColumns(df[1..])
  }

  /** The columns of any other type, in schema order. */
  function OtherColumns(df: Frame): (r: Frame)
    ensures forall c :: c in r <==> c in df && !IsTimestampColumn(c)
  {
    if df == [] then []
    else if IsTimestampColumn(df[0]) then OtherColumns(df[1..])
    else [df[0]] + OtherColumns(df[1..])
  }

  /**
   * `get_timestamp_columns(df)`: the names of the timestamp-typed fields of
   * the schema, in schema order. Date-typed fields are not included.
   */
  function GetTimestampColumns(df: Frame): (names: seq<string>)
    ensures names == Names(TimestampColumns(df))
    ensures forall n :: n in names <==> exists c :: c in df && IsTimestampColumn(c) && c.name == n
  {
    if df == [] then []
    else if IsTimestampColumn(df[0]) then [df[0].name] + GetTimestampColumns(df[1..])
    else GetTimestampColumns(df[1..])
  }

  /** Each timestamp column converted, in order. */
  function ConvertedColumns(cols: Frame, convert: Instant -> Instant): (r: Frame)
    ensures |r| == |cols|
    ensures forall i :: 0 <= i < |cols| ==> r[i] == ConvertedColumn(cols[i], convert)
  {
    if cols == [] then [] else [ConvertedColumn(cols[0], convert)] + ConvertedColumns(cols[1..], convert)
  }

  /** The columns whose names are not among `names`. */
  function DropAll(df: Frame, names: seq<string>): (r: Frame)
    ensures forall c :: c in r <==> c in df && c.name !in names
  {
    if df == [] then []
    else if df[0].name in names then DropAll(df[1..], names)
    else [df[0]] + DropAll(df[1..], names)
  }

  lemma DropAllOne(df: Frame, names: seq<string>, name: string)
    ensures DropAll(df, names + [name]) == Drop(DropAll(df, names), name)
  {
    if df != [] {
      DropAllOne(df[1..], names, name);
    }
  }

  lemma DropAllTimestampNames(df: Frame, names: seq<string>)
    requires forall c :: c in df ==> (c.name in names <==> IsTimestampColumn(c))
    ensures DropAll(df, names) == OtherColumns(df)
  {
    if df != [] {
      DropAllTimestampNames(df[1..], names);
    }
  }

  lemma TimestampColumnsDistinct(df: Frame)
    requires DistinctNames(df)
    ensures DistinctNames(TimestampColumns(df))
  {
    if df != [] {
      TimestampColumnsDistinct(df[1..]);
      if IsTimestampColumn(df[0]) {
        var ts := TimestampColumns(df);
        forall i, j | 0 <= i < j < |ts| ensures ts[i].name != ts[j].name {
          if i == 0 {
            assert ts[j] in TimestampColumns(df[1..]);
            var k :| 0 <= k < |df[1..]| && df[1..][k] == ts[j];
            assert df[k + 1] == ts[j];
          } else {
            assert ts[i] == TimestampColumns(df[1..])[i - 1];
            assert ts[j] == TimestampColumns(df[1..])[j - 1];
          }
        }
      }
    }
  }

  /**
   * `convert_timezone(df, time_zone, to_utc)`: every timestamp column is
   * converted once, local to UTC when `toUtc` is set and UTC to local
   * otherwise; a frame without timestamp columns is returned unchanged.
   * On a frame with distinct, clash-free names, the other columns keep their
   * values and order and the converted columns follow them in schema order.
   */
  method ConvertTimezone(df: Frame, timeZone: TimeZone, toUtc: bool) returns (r: Result<Frame, AnalysisError>)
    ensures GetTimestampColumns(df) == [] ==> r == Success(df)
    ensures DistinctNames(df) && NoTemporaryNameClash(df) ==>
      r == Success(OtherColumns(df) + ConvertedColumns(TimestampColumns(df), if toUtc then timeZone.toUtc else timeZone.fromUtc))
  {
    var timestampCols := GetTimestampColumns(df);
    var convert := if toUtc then timeZone.toUtc else timeZone.fromUtc;
    if timestampCols == [] {
      NoTimestampColumns(df, convert);
      return Success(df);
    }
    var resultDf := df;
    ghost var ts := TimestampColumns(df);
    ghost var wellFormed := DistinctNames(df) && NoTemporaryNameClash(df);
    PartialStart(df, convert);
    for i := 0 to |timestampCols|
      invariant wellFormed ==> resultDf == Partial(df, i, convert)
    {
      var step: Result<Frame, AnalysisError>;
      if toUtc {
        step := ConvertLocaltimeToUtc(resultDf, timestampCols[i], timeZone);
      } else {
        step := ConvertUtcToLocaltime(resultDf, timestampCols[i], timeZone);
      }
      if wellFormed {
        ConvertStep(df, ts, i, convert);
      }
      if step.Failure? {
        return step;
      }
      resultDf := step.value;
    }
    if wellFormed {
      PartialComplete(df, convert);
    }
    return Success(resultDf);
  }

  lemma NoTimestampColumns(df: Frame, convert: Instant -> Instant)
    requires GetTimestampColumns(df) == []
    ensures OtherColumns(df) + ConvertedColumns(TimestampColumns(df), convert) == df
  {
    if df != [] {
      NoTimestampColumns(df[1..], convert);
    }
  }

  lemma PartialStart(df: Frame, convert: Instant -> Instant)
    ensures Partial(df, 0, convert) == df
  {
    DropAllNone(df);
    assert GetTimestampColumns(df)[..0] == [];
    assert TimestampColumns(df)[..0] == [];
  }

  lemma PartialComplete(df: Frame, convert: Instant -> Instant)
    requires DistinctNames(df)
    ensures Partial(df, |TimestampColumns(df)|, convert) == OtherColumns(df) + ConvertedColumns(TimestampColumns(df), convert)
  {
    var ts := TimestampColumns(df);
    var names := GetTimestampColumns(df);
    assert names[..|names|] == names;
    assert ts[..|ts|] == ts;
    forall c | c in df ensures c.name in names <==> IsTimestampColumn(c) {
      if c.name in names {
        var k :| 0 <= k < |ts| && ts[k].name == c.name;
        assert ts[k] in df;
        ColumnsNamedUnique(df, c);
        ColumnsNamedUnique(df, ts[k]);
      }
    }
    DropAllTimestampNames(df, names);
  }

  /** `convert_utc_to_localtime(df, column, time_zone)`. */
  function ConvertUtcToLocaltime(df: Frame, timestampColumn: string, timeZone: TimeZone): (r: Result<Frame, AnalysisError>)
    ensures ColumnsNamed(df, timestampColumn) != [] && DistinctNames(df) && NoTemporaryNameClash(df) ==>
      r == Success(Drop(df, timestampColumn) + [ConvertedColumn(ColumnsNamed(df, timestampColumn)[0], timeZone.fromUtc)])
  {
    ConvertColumn(df, timestampColumn, timeZone.fromUtc)
  }

  /** `convert_localtime_to_utc(df, column, time_zone)`. */
  function ConvertLocaltimeToUtc(df: Frame, timestampColumn: string, timeZone: TimeZone): (r: Result<Frame, AnalysisError>)
    ensures ColumnsNamed(df, timestampColumn) != [] && DistinctNames(df) && NoTemporaryNameClash(df) ==>
      r == Success(Drop(df, timestampColumn) + [ConvertedColumn(ColumnsNamed(df, timestampColumn)[0], timeZone.toUtc)])
  {
    ConvertColumn(df, timestampColumn, timeZone.toUtc)
  }

  /** The frame part way through the loop of `ConvertTimezone`: the first
      `i` timestamp columns moved to the end and converted. */
  ghost function Partial(df: Frame, i: nat, convert: Instant -> Instant): Frame
    requires i <= |TimestampColumns(df)|
  {
    DropAll(df, GetTimestampColumns(df)[..i]) + ConvertedColumns(TimestampColumns(df)[..i], convert)
  }

  lemma DistinctNamesTail(df: Frame)
    requires df != [] && DistinctNames(df)
    ensures DistinctNames(df[1..])
    ensures forall c :: c in df[1..] ==> c.name != df[0].name
  {
    forall c | c in df[1..] ensures c.name != df[0].name {
      var k :| 0 <= k < |df[1..]| && df[1..][k] == c;
      assert df[k + 1] == c;
    }
  }

  lemma DistinctNamesAppend(a: Frame, b: Frame)
    requires DistinctNames(a) && DistinctNames(b)
    requires forall x, y :: x in a && y in b ==> x.name != y.name
    ensures DistinctNames(a + b)
  {
    var ab := a + b;
    forall i, j | 0 <= i < j < |ab| ensures ab[i].name != ab[j].name {
      if j < |a| {
        assert ab[i] == a[i] && ab[j] == a[j];
      } else if i >= |a| {
        assert ab[i] == b[i - |a|] && ab[j] == b[j - |a|];
      } else {
        assert ab[i] == a[i] && ab[j] == b[j - |a|];
        assert a[i] in a && b[j - |a|] in b;
      }
    }
  }

  lemma DropAllDistinct(df: Frame, names: seq<string>)
    requires DistinctNames(df)
    ensures DistinctNames(DropAll(df, names))
  {
    if df != [] {
      DistinctNamesTail(df);
      DropAllDistinct(df[1..], names);
      if df[0].name !in names {
        DistinctNamesAppend([df[0]], DropAll(df[1..], names));
      }
    }
  }

  lemma DropAllNone(df: Frame)
    ensures DropAll(df, []) == df
  {
    if df != [] {
      DropAllNone(df[1..]);
    }
  }

  lemma ConvertedColumnsDistinct(cols: Frame, convert: Instant -> Instant)
    requires DistinctNames(cols)
    ensures DistinctNames(ConvertedColumns(cols, convert))
  {
    var r := ConvertedColumns(cols, convert);
    forall a, b | 0 <= a < b < |r| ensures r[a].name != r[b].name {
      assert r[a].name == cols[a].name && r[b].name == cols[b].name;
    }
  }

  /** The converted columns carry the names of the first `i` timestamp columns, and not the name of the next one. */
  lemma ConvertedNames(df: Frame, i: nat, convert: Instant -> Instant)
    requires DistinctNames(df)
    requires i < |TimestampColumns(df)|
    ensures forall c :: c in ConvertedColumns(TimestampColumns(df)[..i], convert) ==>
      c.name in GetTimestampColumns(df)[..i] && c.name != TimestampColumns(df)[i].name
    ensures TimestampColumns(df)[i].name !in GetTimestampColumns(df)[..i]
  {
    var ts := TimestampColumns(df);
    var names := GetTimestampColumns(df);
    TimestampColumnsDistinct(df);
    var conv := ConvertedColumns(ts[..i], convert);
    forall c | c in conv ensures c.name in names[..i] && c.name != ts[i].name {
      var k :| 0 <= k < |conv| && conv[k] == c;
      assert c.name == ts[k].name == names[k];
    }
    forall k | 0 <= k < i ensures names[k] != ts[i].name {
      assert ts[k].name == names[k];
    }
  }

  lemma PartialDistinct(df: Frame, i: nat, convert: Instant -> Instant)
    requires DistinctNames(df)
    requires i < |TimestampColumns(df)|
    ensures DistinctNames(Partial(df, i, convert))
  {
    var ts := TimestampColumns(df);
    var names := GetTimestampColumns(df);
    TimestampColumnsDistinct(df);
    ConvertedNames(df, i, convert);
    DropAllDistinct(df, names[..i]);
    assert DistinctNames(ts[..i]);
    ConvertedColumnsDistinct(ts[..i], convert);
    DistinctNamesAppend(DropAll(df, names[..i]), ConvertedColumns(ts[..i], convert));
  }

  lemma PartialNoClash(df: Frame, i: nat, convert: Instant -> Instant)
    requires DistinctNames(df) && NoTemporaryNameClash(df)
    requires i < |TimestampColumns(df)|
    ensures NoTemporaryNameClash(Partial(df, i, convert))
  {
    PartialNamesFromFrame(df, i, convert);
    var p := Partial(df, i, convert);
    forall c, d | c in p && d in p ensures d.name != c.name + "_tmp" {
      var a :| 0 <= a < |df| && Names(df)[a] == c.name;
      var b :| 0 <= b < |df| && Names(df)[b] == d.name;
      assert df[a] in df && df[b] in df;
    }
  }

  /** Every column of the partial frame carries the name of a column of the original frame. */
  lemma PartialNamesFromFrame(df: Frame, i: nat, convert: Instant -> Instant)
    requires i < |TimestampColumns(df)|
    ensures forall c :: c in Partial(df, i, convert) ==> c.name in Names(df)
  {
    var ts := TimestampColumns(df);
    var conv := ConvertedColumns(ts[..i], convert);
    forall c | c in Partial(df, i, convert) ensures c.name in Names(df) {
      if c in conv {
        var k :| 0 <= k < |conv| && conv[k] == c;
        assert ts[k] in df;
        var j :| 0 <= j < |df| && df[j] == ts[k];
        assert Names(df)[j] == c.name;
      } else {
        var j :| 0 <= j < |df| && df[j] == c;
        assert Names(df)[j] == c.name;
      }
    }
  }

  lemma PartialColumnNamed(df: Frame, i: nat, convert: Instant -> Instant)
    requires DistinctNames(df)
    requires i < |TimestampColumns(df)|
    ensures ColumnsNamed(Partial(df, i, convert), TimestampColumns(df)[i].name) == [TimestampColumns(df)[i]]
  {
    var ts := TimestampColumns(df);
    assert ts[i] in df;
    ConvertedNames(df, i, convert);
    PartialDistinct(df, i, convert);
    assert ts[i] in DropAll(df, GetTimestampColumns(df)[..i]);
    ColumnsNamedUnique(Partial(df, i, convert), ts[i]);
  }

  /** Dropping the next timestamp column from the partial frame and appending it converted gives the next partial frame. */
  lemma PartialNext(df: Frame, i: nat, convert: Instant -> Instant)
    requires DistinctNames(df)
    requires i < |TimestampColumns(df)|
    ensures Drop(Partial(df, i, convert), TimestampColumns(df)[i].name) + [ConvertedColumn(TimestampColumns(df)[i], convert)]
      == Partial(df, i + 1, convert)
  {
    var ts := TimestampColumns(df);
    var names := GetTimestampColumns(df);
    ConvertedNames(df, i, convert);
    var kept := DropAll(df, names[..i]);
    var conv := ConvertedColumns(ts[..i], convert);
    var n := ts[i].name;
    assert names[i] == n;
    DropAppend(kept, conv, n);
    DropAbsent(conv, n);
    PrefixSnoc(names, i);
    DropAllOne(df, names[..i], n);
    PrefixSnoc(ts, i);
    ConvertedColumnsSnoc(ts[..i], ts[i], convert);
  }

  lemma ConvertedColumnsSnoc(cols: Frame, c: Column, convert: Instant -> Instant)
    ensures ConvertedColumns(cols + [c], convert) == ConvertedColumns(cols, convert) + [ConvertedColumn(c, convert)]
  {
    var r := ConvertedColumns(cols + [c], convert);
    assert forall k :: 0 <= k < |cols| ==> (cols + [c])[k] == cols[k];
  }

  lemma ConvertStep(df: Frame, ts: Frame, i: nat, convert: Instant -> Instant)
    requires DistinctNames(df) && NoTemporaryNameClash(df)
    requires ts == TimestampColumns(df) && i < |ts|
    ensures ConvertColumn(Partial(df, i, convert), ts[i].name, convert) == Success(Partial(df, i + 1, convert))
  {
    var p := Partial(df, i, convert);
    PartialDistinct(df, i, convert);
    PartialNoClash(df, i, convert);
    PartialColumnNamed(df, i, convert);
    PartialNext(df, i, convert);
  }
}
