/**
 * The stand-alone ingestion script: the same downloads as the orchestrated
 * flow, a frame that also carries the insert time, a CSV export that never
 * overwrites, a table that is created unless it exists (and is dropped and
 * recreated only on request), and a per-day loop that passes that request to
 * the first file only.
 */
module Ingestion {
  import opened Wrappers
  import opened Calendar
  import opened Naming
  import opened Store
  import FlowIngestion

  /** The column order of this script's frames. */
  const Columns: seq<string> :=
    ["insert_time", "pgview_datetime", "domain_code", "page_title", "count_views", "total_response_size"]

  /**
   * One frame row: the insert time, the file's timestamp, then the dump line's
   * four fields. The insert time is `strftime("%Y-%m-%d %H:%M:%S")` of the
   * clock reading, the same text as `str(datetime)` for years from 1000 on.
   */
  function StampedRow(now: DateTime, stamp: DateTime, line: DumpLine): Row {
    [StampText(now), StampText(stamp), Text(line.domainCode), Text(line.pageTitle),
     Number(line.countViews), Number(line.totalResponseSize)]
  }

  /**
   * `get_dataframe(raw_filepath, nrows)`: like the flow's reader, with the
   * reading of the clock, `now`, in front of every row.
   */
  function GetDataframe(files: map<string, File>, rawPath: string, nrows: Option<nat>, now: DateTime): Result<Frame, Error> {
    match ReadDump(files, rawPath, nrows)
    case Err(e) => Err(e)
    case Ok(lines) =>
      match StemStamp(rawPath)
      case None => Err(ValueError(Stem(rawPath)))
      case Some(t) => Ok(Frame(Columns, seq(|lines|, i requires 0 <= i < |lines| => StampedRow(now, t, lines[i]))))
  }

  /**
   * The two readers fail on the same files with the same error, and agree row
   * for row except for the insert time this one puts first.
   */
  lemma DataframeMatchesFlow(files: map<string, File>, rawPath: string, nrows: Option<nat>, now: DateTime)
    ensures var mine, flow := GetDataframe(files, rawPath, nrows, now), FlowIngestion.GetDataframe(files, rawPath, nrows);
      && (mine.Ok? <==> flow.Ok?)
      && (mine.Err? ==> mine.error == flow.error)
      && (mine.Ok? ==> (mine.value.columns == Columns && |mine.value.rows| == |flow.value.rows|
          && forall i :: 0 <= i < |mine.value.rows| ==> mine.value.rows[i] == [StampText(now)] + flow.value.rows[i]))
  {
  }

  // ----- Downloads -----

  /** `download_file(year, month, day, hr)`: fetch the dump unless it is cached; return its path. */
  method DownloadFile(host: Host, remote: string -> Body, year: int, month: int, day: int, hr: int)
    returns (rawFilepath: string)
    modifies host
    ensures rawFilepath == RawPath(year, month, day, hr)
    ensures host.State() == Fetch(old(host.State()), rawFilepath, RawUrl(year, month, day, hr), remote)
  {
    rawFilepath := RawPath(year, month, day, hr);
    host.Download(rawFilepath, RawUrl(year, month, day, hr), remote);
  }

  /** `download_raw_day(y, m, d)`: the 24 hours of the day, in order. */
  method DownloadRawDay(host: Host, remote: string -> Body, year: int, month: int, day: int)
    returns (rawPaths: seq<string>)
    modifies host
    ensures rawPaths == DayPaths(year, month, day, AllHours())
    ensures host.State() == FetchAll(old(host.State()), DayTargets(year, month, day, AllHours()), remote)
  {
    rawPaths := FlowIngestion.DownloadTargets(host, remote, DayTargets(year, month, day, AllHours()));
  }

  /** The day is 24 paths, the path of hour `h` at position `h`. */
  lemma DayOf24Hours(year: int, month: int, day: int)
    ensures |DayPaths(year, month, day, AllHours())| == 24
    ensures forall h :: 0 <= h < 24 ==> DayPaths(year, month, day, AllHours())[h] == RawPath(year, month, day, h)
  {
    AllHoursInOrder();
  }

  // ----- CSV export that never overwrites -----

  /** The file tree after `write_to_csv`: the frame goes to `path` only when nothing is there yet. */
  function WriteIfAbsent(files: map<string, File>, path: string, df: Frame): map<string, File> {
    if path in files then files else files[path := Csv(df)]
  }

  /**
   * The path exists afterwards; every file that was there is unchanged;
   * nothing else appears; and a second write of any frame changes nothing.
   */
  lemma WriteIfAbsentKeeps(files: map<string, File>, path: string, df: Frame, df2: Frame)
    ensures var after := WriteIfAbsent(files, path, df);
      && path in after
      && (forall p :: p in files ==> p in after && after[p] == files[p])
      && (forall p :: p in after ==> p in files || p == path)
      && (path !in files ==> after[path] == Csv(df))
      && WriteIfAbsent(after, path, df2) == after
  {
  }

  /** `write_to_csv(df, csv_filename, replace)`: write unless the file exists; `replace` is ignored. */
  method WriteToCsv(host: Host, df: Frame, csvFilename: string, replace: bool) returns (csvFilepath: string)
    modifies host
    ensures csvFilepath == CsvPath(csvFilename)
    ensures host.files == WriteIfAbsent(old(host.files), csvFilepath, df) && host.fetched == old(host.fetched)
  {
    csvFilepath := CsvPath(csvFilename);
    if csvFilepath !in host.files {
      host.Write(csvFilepath, Csv(df));
    }
  }

  // ----- Table-conflict policy -----

  /** The catalog after `create_table(df, table_name, con, replace)`. */
  function CreatePolicy(tables: Catalog, table: string, replace: bool): Catalog {
    if table !in tables then tables[table := []]
    else if replace then tables[table := []]
    else tables
  }

  /**
   * The table exists afterwards. It is empty when it was absent or `replace`
   * is set; otherwise it keeps its rows. No other table changes.
   */
  lemma CreatePolicyCases(tables: Catalog, table: string, replace: bool)
    ensures var after := CreatePolicy(tables, table, replace);
      && table in after
      && (table !in tables || replace ==> after[table] == [])
      && (table in tables && !replace ==> after[table] == tables[table])
      && (forall t :: t != table ==> (t in after <==> t in tables) && (t in tables ==> after[t] == tables[t]))
  {
  }

  /** Once the policy has run, running it again without `replace` changes nothing. */
  lemma CreatePolicySettles(tables: Catalog, table: string, replace: bool)
    ensures CreatePolicy(CreatePolicy(tables, table, replace), table, false) == CreatePolicy(tables, table, replace)
  {
  }

  /**
   * `create_table(df, table_name, con, replace)`: `CREATE TABLE`; on
   * `DuplicateTable` roll back and, with `replace`, drop it and create it
   * again. The frame only supplies the schema.
   */
  method CreateTable(wh: Warehouse, df: Frame, tableName: string, replace: bool)
    modifies wh
    ensures wh.tables == CreatePolicy(old(wh.tables), tableName, replace) && wh.journal == old(wh.journal)
  {
    var created := wh.Create(tableName);
    if !created && replace {
      wh.Drop(tableName);
      created := wh.Create(tableName);
    }
  }

  // ----- Per-file and per-day generation -----

  /** The file tree, the catalog and the error, if any, after one or more steps. */
  datatype Outcome = Outcome(files: map<string, File>, tables: Catalog, err: Option<Error>)

  /** `generate_csv(raw_path, csv_filename, table_name, con, replace)` on values. */
  function Generate(files: map<string, File>, tables: Catalog, rawPath: string, csvFilename: string,
                    table: string, replace: bool, now: DateTime): Outcome
  {
    match GetDataframe(files, rawPath, None, now)
    case Err(e) => Outcome(files, tables, Some(e))
    case Ok(df) => Outcome(WriteIfAbsent(files, CsvPath(csvFilename), df), CreatePolicy(tables, table, replace), None)
  }

  /** `generate_csv(raw_path, csv_filename, table_name, con, replace)`: read, create the table, export. */
  method GenerateCsv(host: Host, wh: Warehouse, rawPath: string, csvFilename: string, tableName: string,
                     replace: bool, now: DateTime) returns (r: Result<string, Error>)
    modifies host, wh
    ensures host.fetched == old(host.fetched) && wh.journal == old(wh.journal)
    ensures Outcome(host.files, wh.tables, if r.Ok? then None else Some(r.error))
      == Generate(old(host.files), old(wh.tables), rawPath, csvFilename, tableName, replace, now)
    ensures r.Ok? ==> r.value == CsvPath(csvFilename)
  {
    var df := GetDataframe(host.files, rawPath, None, now);
    if df.Err? {
      return Err(df.error);
    }
    CreateTable(wh, df.value, tableName, replace);
    var csvFp := WriteToCsv(host, df.value, csvFilename, false);
    r := Ok(csvFp);
  }

  /**
   * The per-day loop on values: the first file gets `replace`, every later one
   * `false`, up to the first error. `nows[i]` is what the clock reads when the
   * `i`-th file's frame is built, since each `get_dataframe` reads it afresh.
   */
  function GenerateAll(files: map<string, File>, tables: Catalog, raws: seq<string>, table: string,
                       replace: bool, nows: seq<DateTime>): Outcome
    requires |nows| == |raws|
    decreases |raws|
  {
    if raws == [] then Outcome(files, tables, None)
    else
      var o := Generate(files, tables, raws[0], Stem(raws[0]), table, replace, nows[0]);
      if o.err.Some? then o else GenerateAll(o.files, o.tables, raws[1..], table, false, nows[1..])
  }

  /**
   * One turn of the per-day loop: generate the first remaining file. On
   * success the rest of the day is what remains to be done, without
   * `replace`; on failure the day ends here with this error.
   */
  method GenerateNext(host: Host, wh: Warehouse, raws: seq<string>, tableName: string, replace: bool, nows: seq<DateTime>)
    returns (r: Result<string, Error>)
    requires raws != [] && |nows| == |raws|
    modifies host, wh
    ensures host.fetched == old(host.fetched) && wh.journal == old(wh.journal)
    ensures r.Ok? ==> CsvPaths(raws) == [r.value] + CsvPaths(raws[1..])
    ensures r.Ok? ==> (GenerateAll(old(host.files), old(wh.tables), raws, tableName, replace, nows)
                       == GenerateAll(host.files, wh.tables, raws[1..], tableName, false, nows[1..]))
    ensures r.Err? ==> (GenerateAll(old(host.files), old(wh.tables), raws, tableName, replace, nows)
                        == Outcome(host.files, wh.tables, Some(r.error)))
  {
    r := GenerateCsv(host, wh, raws[0], Stem(raws[0]), tableName, replace, nows[0]);
  }

  /**
   * `generate_csv_day(raw_paths, table_name, con, replace)`: generate every
   * file in order and collect the CSV paths. `passed` is the `replace`
   * argument each `create_table` call received: the caller's value for the
   * first file and `false` for every later one.
   */
  method GenerateCsvDay(host: Host, wh: Warehouse, rawPaths: seq<string>, tableName: string, replace: bool, nows: seq<DateTime>)
    returns (r: Result<seq<string>, Error>, ghost passed: seq<bool>)
    requires |nows| == |rawPaths|
    modifies host, wh
    ensures host.fetched == old(host.fetched) && wh.journal == old(wh.journal)
    ensures Outcome(host.files, wh.tables, if r.Ok? then None else Some(r.error))
      == GenerateAll(old(host.files), old(wh.tables), rawPaths, tableName, replace, nows)
    ensures r.Ok? ==> r.value == CsvPaths(rawPaths) && |passed| == |rawPaths|
    ensures |passed| <= |rawPaths| && forall k :: 0 <= k < |passed| ==> passed[k] == (replace && k == 0)
  {
    var csvPaths := [];
    var rep := replace;
    var rest, restNows := rawPaths, nows;
    passed := [];
    while rest != []
      invariant |restNows| == |rest| && |passed| + |rest| == |rawPaths|
      invariant rep == (replace && passed == [])
      invariant forall k :: 0 <= k < |passed| ==> passed[k] == (replace && k == 0)
      invariant host.fetched == old(host.fetched) && wh.journal == old(wh.journal)
      invariant csvPaths + CsvPaths(rest) == CsvPaths(rawPaths)
      invariant GenerateAll(old(host.files), old(wh.tables), rawPaths, tableName, replace, nows)
        == GenerateAll(host.files, wh.tables, rest, tableName, rep, restNows)
      decreases |rest|
    {
      var cp := GenerateNext(host, wh, rest, tableName, rep, restNows);
      passed := passed + [rep];
      if cp.Err? {
        r := Err(cp.error);
        return;
      }
      rep := false;
      csvPaths := csvPaths + [cp.value];
      rest, restNows := rest[1..], restNows[1..];
    }
    assert csvPaths + [] == csvPaths;
    r := Ok(csvPaths);
  }

  /** Files after the first are generated without `replace`, which leaves an existing table as it is. */
  lemma {:induction false} GenerateAllSettled(files: map<string, File>, tables: Catalog, raws: seq<string>,
                                              table: string, nows: seq<DateTime>)
    requires table in tables && |nows| == |raws|
    ensures GenerateAll(files, tables, raws, table, false, nows).tables == tables
    decreases |raws|
  {
    if raws != [] {
      var o := Generate(files, tables, raws[0], Stem(raws[0]), table, false, nows[0]);
      assert o.tables == tables;
      if o.err.None? {
        GenerateAllSettled(o.files, o.tables, raws[1..], table, nows[1..]);
      }
    }
  }

  /**
   * After the per-day loop the catalog is what one `create_table` with the
   * caller's `replace` makes of it, provided the first file could be read;
   * otherwise the catalog is untouched. With `replace` the table is thus
   * empty; without it, existing rows are kept.
   */
  lemma GenerateAllTable(files: map<string, File>, tables: Catalog, raws: seq<string>, table: string,
                         replace: bool, nows: seq<DateTime>)
    requires raws != [] && |nows| == |raws|
    ensures GetDataframe(files, raws[0], None, nows[0]).Ok? ==>
      GenerateAll(files, tables, raws, table, replace, nows).tables == CreatePolicy(tables, table, replace)
    ensures GetDataframe(files, raws[0], None, nows[0]).Err? ==>
      GenerateAll(files, tables, raws, table, replace, nows) == Outcome(files, tables, Some(GetDataframe(files, raws[0], None, nows[0]).error))
  {
    var o := Generate(files, tables, raws[0], Stem(raws[0]), table, replace, nows[0]);
    if o.err.None? {
      CreatePolicyCases(tables, table, replace);
      GenerateAllSettled(o.files, o.tables, raws[1..], table, nows[1..]);
    }
  }

  /** A successful per-day loop with `replace` leaves the table empty and every other table as it was. */
  lemma GenerateAllEmpties(files: map<string, File>, tables: Catalog, raws: seq<string>, table: string, nows: seq<DateTime>)
    requires raws != [] && |nows| == |raws|
    ensures var g := GenerateAll(files, tables, raws, table, true, nows);
      g.err.None? ==> g.tables == tables[table := []]
  {
    GenerateAllTable(files, tables, raws, table, true, nows);
  }

  /**
   * The first file's CSV export, when it did not exist yet, holds that file's
   * frame built with the first clock reading, and the rest of the day leaves it so.
   */
  lemma GenerateAllFirstFile(files: map<string, File>, tables: Catalog, raws: seq<string>, table: string,
                             replace: bool, nows: seq<DateTime>)
    requires raws != [] && |nows| == |raws|
    requires GetDataframe(files, raws[0], None, nows[0]).Ok? && ExportPath(raws[0]) !in files
    ensures var after := GenerateAll(files, tables, raws, table, replace, nows).files;
      ExportPath(raws[0]) in after
      && after[ExportPath(raws[0])] == Csv(GetDataframe(files, raws[0], None, nows[0]).value)
  {
    var o := Generate(files, tables, raws[0], Stem(raws[0]), table, replace, nows[0]);
    if o.err.None? {
      GenerateAllKeeps(o.files, o.tables, raws[1..], table, false, nows[1..], ExportPath(raws[0]));
    }
  }

  /** The per-day loop never changes a file that already existed: dumps and earlier CSV files stay as they were. */
  lemma {:induction false} GenerateAllKeeps(files: map<string, File>, tables: Catalog, raws: seq<string>,
                                            table: string, replace: bool, nows: seq<DateTime>, p: string)
    requires p in files && |nows| == |raws|
    ensures var after := GenerateAll(files, tables, raws, table, replace, nows).files;
      p in after && after[p] == files[p]
    decreases |raws|
  {
    if raws != [] {
      var o := Generate(files, tables, raws[0], Stem(raws[0]), table, replace, nows[0]);
      if o.err.None? {
        GenerateAllKeeps(o.files, o.tables, raws[1..], table, false, nows[1..], p);
      }
    }
  }

  // ----- The script -----

  /**
   * `main(y, m, d, con_file, src_schema)`: download the 24 dumps of the day,
   * generate the CSV files into `pageview_raw_<yyyymmdd>` with `replace`, and
   * append them to it in hour order. `nows` holds the clock's 24 readings,
   * one for each file's frame.
   */
  method IngestDay(host: Host, wh: Warehouse, remote: string -> Body, nows: seq<DateTime>, y: int, m: int, d: int)
    returns (err: Option<Error>)
    requires |nows| == 24
    modifies host, wh
    ensures wh.journal == old(wh.journal)
    ensures var downloaded := FetchAll(old(host.State()), DayTargets(y, m, d, AllHours()), remote);
      var raws := DayPaths(y, m, d, AllHours());
      var g := GenerateAll(downloaded.files, old(wh.tables), raws, RawTableName(y, m, d), true, nows);
      && host.fetched == downloaded.fetched && host.files == g.files
      && (g.err.Some? ==> err == g.err && wh.tables == g.tables)
      && (g.err.None? ==> (wh.tables, err) == AppendAll(g.files, g.tables, CsvPaths(raws), RawTableName(y, m, d)))
  {
    var tableName := RawTableName(y, m, d);
    var rawPaths := DownloadRawDay(host, remote, y, m, d);
    var csvPaths, passed := GenerateCsvDay(host, wh, rawPaths, tableName, true, nows);
    if csvPaths.Err? {
      return Some(csvPaths.error);
    }
    err := FlowIngestion.CopyFromCsvDay(host.files, wh, csvPaths.value, tableName);
  }

  /**
   * When every step succeeds, the day's table holds exactly the rows of the
   * CSV files, in order, whatever it held before, and no other table changed.
   */
  lemma DayRows(files: map<string, File>, tables: Catalog, raws: seq<string>, table: string, nows: seq<DateTime>)
    requires raws != [] && |nows| == |raws|
    ensures var g := GenerateAll(files, tables, raws, table, true, nows);
      var a := AppendAll(g.files, g.tables, CsvPaths(raws), table);
      g.err.None? && a.1.None? ==>
        CsvRows(g.files, CsvPaths(raws)).Some? && a.0 == tables[table := CsvRows(g.files, CsvPaths(raws)).value]
  {
    var g := GenerateAll(files, tables, raws, table, true, nows);
    if g.err.None? {
      GenerateAllEmpties(files, tables, raws, table, nows);
      var created := g.tables;
      FlowIngestion.CsvRowsThenAppend(g.files, created, CsvPaths(raws), table);
      if CsvRows(g.files, CsvPaths(raws)).Some? {
        var rows := CsvRows(g.files, CsvPaths(raws)).value;
        assert created[table := rows] == tables[table := rows];
      }
    }
  }
}
