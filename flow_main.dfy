/**
 * The scheduled flow: pick the day two days before today, derive the three
 * table names from it, ingest that day's 24 dumps into the raw table, then
 * run the transformation from the raw table. The clock is a parameter.
 */
module FlowMain {
  import opened Wrappers
  import opened Decimal
  import opened Calendar
  import opened Naming
  import opened Store
  import opened Sessions
  import FlowIngestion
  import FlowTransformation

  /** `dt.datetime.today() - dt.timedelta(days=2)` on the date; `None` where Python raises OverflowError. */
  function TargetDate(today: Date): Option<Date>
    requires ValidDate(today)
  {
    SubtractDays(today, 2)
  }

  /** The three tables of one run: raw, aggregated and destination. */
  datatype Tables = Tables(raw: string, agg: string, dest: string)

  /** The table names the flow derives from its target date. */
  function TableNames(t: Date): Tables {
    Tables(RawTableName(t.year, t.month, t.day), AggTableName(t.year, t.month, t.day), DestTableName(t.year))
  }

  // ----- Properties -----

  /**
   * The target date is valid and exactly two day numbers before today, so
   * today is two days after it; there is one unless today is one of the first
   * two days of the calendar.
   */
  lemma TargetDateLag(today: Date)
    requires ValidDate(today)
    ensures TargetDate(today).Some? <==> Ordinal(today) > 2
    ensures TargetDate(today).Some? ==>
      ValidDate(TargetDate(today).value) && Ordinal(TargetDate(today).value) == Ordinal(today) - 2
    ensures TargetDate(today).Some? ==> AddDays(TargetDate(today).value, 2) == Some(today)
  {
    SubtractDaysFails(today, 2);
    if TargetDate(today).Some? {
      SubtractDaysOrdinal(today, 2);
      AddAfterSubtract(today, 2);
    }
  }

  /** Across a month end, a year end and a leap day. */
  lemma TargetDateExamples()
    ensures TargetDate(Date(2024, 3, 1)) == Some(Date(2024, 2, 28))
    ensures TargetDate(Date(2023, 3, 1)) == Some(Date(2023, 2, 27))
    ensures TargetDate(Date(2025, 1, 1)) == Some(Date(2024, 12, 30))
    ensures TargetDate(Date(2024, 5, 2)) == Some(Date(2024, 4, 30))
  {
    assert SubtractDays(Date(2024, 2, 29), 1) == Some(Date(2024, 2, 28));
    assert SubtractDays(Date(2023, 2, 28), 1) == Some(Date(2023, 2, 27));
    assert SubtractDays(Date(2024, 12, 31), 1) == Some(Date(2024, 12, 30));
    assert SubtractDays(Date(2024, 5, 1), 1) == Some(Date(2024, 4, 30));
  }

  /** The three tables of a run are different tables. */
  lemma NamesDistinct(t: Date)
    ensures var n := TableNames(t);
      n.raw != n.agg && n.raw != n.dest && n.agg != n.dest
  {
    var y, m, d := IntStr(t.year), Pad2(t.month), Pad2(t.day);
    Pad2Shape(t.month);
    Pad2Shape(t.day);
    var n := TableNames(t);
    assert n.raw[9] == 'r';
    assert n.agg[9] == y[0] && n.dest[9] == y[0];
    assert IsDigit(y[0]) || y[0] == '-';
  }

  /** For valid dates, the raw and the aggregated table name each determine the day. */
  lemma DayTablesInjective(t1: Date, t2: Date)
    requires ValidDate(t1) && ValidDate(t2)
    ensures TableNames(t1).raw == TableNames(t2).raw ==> t1 == t2
    ensures TableNames(t1).agg == TableNames(t2).agg ==> t1 == t2
  {
    Pad2Shape(t1.month); Pad2Shape(t1.day);
    Pad2Shape(t2.month); Pad2Shape(t2.day);
    var y1, m1, d1 := IntStr(t1.year), Pad2(t1.month), Pad2(t1.day);
    var y2, m2, d2 := IntStr(t2.year), Pad2(t2.month), Pad2(t2.day);
    if TableNames(t1).raw == TableNames(t2).raw {
      FieldsOf("pageview_raw_", y1, m1, d1, y2, m2, d2);
      IntStrInjective(t1.year, t2.year);
    }
    if TableNames(t1).agg == TableNames(t2).agg {
      FieldsOf("pageview_", y1, m1, d1, y2, m2, d2);
      IntStrInjective(t1.year, t2.year);
    }
  }

  /** A prefix followed by a year and two two-character fields determines the three fields. */
  lemma FieldsOf(p: string, y1: string, m1: string, d1: string, y2: string, m2: string, d2: string)
    requires |m1| == 2 && |d1| == 2 && |m2| == 2 && |d2| == 2
    requires p + y1 + m1 + d1 == p + y2 + m2 + d2
    ensures y1 == y2 && m1 == m2 && d1 == d2
  {
    var s := p + y1 + m1 + d1;
    assert |y1| == |y2|;
    assert y1 == s[|p|..|p| + |y1|] == y2;
    assert m1 == s[|p| + |y1|..|p| + |y1| + 2] == m2;
    assert d1 == s[|p| + |y1| + 2..] == d2;
  }

  /**
   * `main(con_file)`: ingest the target day's 24 hours into the raw table,
   * then transform from the raw table into the aggregated and destination
   * tables. An error in the ingestion ends the run before the transformation;
   * a refused statement ends it with that statement.
   */
  method RunFlow(host: Host, wh: Warehouse, remote: string -> Body, read: string -> string,
                 rejects: string -> bool, today: Date) returns (err: Option<Error>)
    requires ValidDate(today)
    modifies host, wh
    ensures TargetDate(today).None? ==>
      err == Some(OverflowError) && host.State() == old(host.State()) && wh.tables == old(wh.tables)
      && wh.journal == old(wh.journal)
    ensures TargetDate(today).Some? ==>
      var t := TargetDate(today).value;
      var n := TableNames(t);
      var downloaded := FetchAll(old(host.State()), DayTargets(t.year, t.month, t.day, AllHours()), remote);
      var loaded := FlowIngestion.Load(downloaded.files, old(wh.tables), DayPaths(t.year, t.month, t.day, AllHours()), n.raw);
      var plan := FlowTransformation.Plan(read, n.raw, n.agg, n.dest);
      && host.fetched == downloaded.fetched && host.files == loaded.files && wh.tables == loaded.tables
      && (loaded.err.Some? ==> err == loaded.err && wh.journal == old(wh.journal))
      && (loaded.err.None? ==> wh.journal == old(wh.journal) + Session(plan, rejects)
                               && (err.None? <==> Committed in Session(plan, rejects)))
  {
    var target := TargetDate(today);
    if target.None? {
      return Some(OverflowError);
    }
    var y, m, d := target.value.year, target.value.month, target.value.day;
    var rawTableName := RawTableName(y, m, d);
    var aggTableName := AggTableName(y, m, d);
    var destTableName := DestTableName(y);
    err := FlowIngestion.Ingest(host, wh, remote, y, m, d, rawTableName, None);
    if err.Some? {
      return;
    }
    var ok := FlowTransformation.Transformation(wh, read, rejects, rawTableName, aggTableName, destTableName);
    if !ok {
      var plan := FlowTransformation.Plan(read, rawTableName, aggTableName, destTableName);
      var k := AcceptedPrefix(plan, rejects);
      CommitsOnce(plan, rejects);
      SessionShape(plan, rejects);
      err := Some(StatementFailed(if k < |plan| then plan[k] else ""));
    }
  }
}
