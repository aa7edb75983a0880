/**
 * The orchestrated ingestion flow: download a day's hourly dumps into the
 * cache, recreate the raw table from the first dump, export every dump to a
 * CSV file, and bulk-append the CSV files to the table in hour order.
 */
module FlowIngestion {
  import opened Wrappers
  import opened Calendar
  import opened Naming
  import opened Store

  /** The column order of the exported frames. */
  const Columns: seq<string> := ["pgview_timestamp", "domain_code", "page_title", "count_views", "total_response_size"]

  /** One frame row: the file's timestamp, then the dump line's four fields. */
  function StampedRow(stamp: DateTime, line: DumpLine): Row {
    [StampText(stamp), Text(line.domainCode), Text(line.pageTitle), Number(line.countViews), Number(line.totalResponseSize)]
  }

  /**
   * `get_dataframe(raw_path, nrows)`: read at most `nrows` lines of the dump
   * and put the timestamp parsed from the file name in front of each.
   */
  function GetDataframe(files: map<string, File>, rawPath: string, nrows: Option<nat>): Result<Frame, Error> {
    match ReadDump(files, rawPath, nrows)
    case Err(e) => Err(e)
    case Ok(lines) =>
      match StemStamp(rawPath)
      case None => Err(ValueError(Stem(rawPath)))
      case Some(t) =>
        Ok(Frame(Columns, seq(|lines|, i requires 0 <= i < |lines| => StampedRow(t, lines[i]))))
  }

  /**
   * A frame is built exactly when the dump can be read and its stem parses as
   * a timestamp; a read error is passed on, an unparsable stem is a `ValueError`,
   * and a frame has the five columns and one row per line read.
   */
  lemma DataframeOutcome(files: map<string, File>, rawPath: string, nrows: Option<nat>)
    ensures var r := GetDataframe(files, rawPath, nrows);
      var read := ReadDump(files, rawPath, nrows);
      && (r.Ok? <==> read.Ok? && StemStamp(rawPath).Some?)
      && (read.Err? ==> r == Err(read.error))
      && (read.Ok? && StemStamp(rawPath).None? ==> r == Err(ValueError(Stem(rawPath))))
      && (r.Ok? ==> r.value.columns == Columns && |r.value.rows| == |read.value|)
  {
  }

  /**
   * Every row of a frame carries the same timestamp, the one in the file's
   * name, followed by the fields of the dump line in the same position.
   */
  lemma OneStampPerFile(files: map<string, File>, rawPath: string, nrows: Option<nat>, t: DateTime)
    requires ReadDump(files, rawPath, nrows).Ok? && StemStamp(rawPath) == Some(t)
    ensures var r := GetDataframe(files, rawPath, nrows);
      var lines := ReadDump(files, rawPath, nrows).value;
      && r.Ok? && r.value.columns == Columns && |r.value.rows| == |lines|
      && forall i :: 0 <= i < |lines| ==> r.value.rows[i] == StampedRow(t, lines[i])
  {
  }

  /** A dump downloaded for a date and an hour yields rows stamped with that hour, minute and second 0. */
  lemma DumpFrameStamp(files: map<string, File>, year: int, month: int, day: int, hour: int, nrows: Option<nat>)
    requires 1000 <= year && ValidDate(Date(year, month, day)) && 0 <= hour < 24
    requires ReadDump(files, RawPath(year, month, day, hour), nrows).Ok?
    ensures var r := GetDataframe(files, RawPath(year, month, day, hour), nrows);
      && r.Ok? && r.value.columns == Columns
      && forall i :: 0 <= i < |r.value.rows| ==>
           r.value.rows[i][0] == StampText(DateTime(year, month, day, hour, 0, 0))
  {
    RawPathStamp(year, month, day, hour);
    OneStampPerFile(files, RawPath(year, month, day, hour), nrows, DateTime(year, month, day, hour, 0, 0));
  }

  /** A frame depends only on the dump file it is read from. */
  lemma DataframeLocal(f1: map<string, File>, f2: map<string, File>, rawPath: string, nrows: Option<nat>)
    requires (rawPath in f1 <==> rawPath in f2) && (rawPath in f1 ==> f1[rawPath] == f2[rawPath])
    ensures GetDataframe(f1, rawPath, nrows) == GetDataframe(f2, rawPath, nrows)
  {
  }

  // ----- Downloads -----

  /** `download_raw_pageviews(year, month, day, hr)`: fetch the dump unless it is cached; return its path. */
  method DownloadRawPageviews(host: Host, remote: string -> Body, year: int, month: int, day: int, hr: int)
    returns (rawPath: string)
    modifies host
    ensures rawPath == RawPath(year, month, day, hr)
    ensures host.State() == Fetch(old(host.State()), rawPath, RawUrl(year, month, day, hr), remote)
  {
    rawPath := RawPath(year, month, day, hr);
    host.Download(rawPath, RawUrl(year, month, day, hr), remote);
  }

  /** `if not hrs: hrs = range(24)`. */
  function HoursOrDefault(hrs: Option<seq<int>>): (hs: seq<int>)
    ensures hs != []
  {
    if hrs.None? || hrs.value == [] then AllHours() else hrs.value
  }

  /** Without hours, or with none, the day is all 24 hours in order; otherwise the hours as given. */
  lemma HoursDefault(hrs: Option<seq<int>>)
    ensures hrs.None? || hrs.value == [] ==> HoursOrDefault(hrs) == AllHours() && |AllHours()| == 24
    ensures hrs.Some? && hrs.value != [] ==> HoursOrDefault(hrs) == hrs.value
    ensures forall h :: 0 <= h < |AllHours()| ==> AllHours()[h] == h
  {
  }

  /**
   * The loop of `download_raw_day`: one `download_raw_pageviews` per target, in
   * order, collecting the local paths.
   */
  method DownloadTargets(host: Host, remote: string -> Body, ts: seq<(string, string)>) returns (rawPaths: seq<string>)
    modifies host
    ensures |rawPaths| == |ts| && forall j :: 0 <= j < |ts| ==> rawPaths[j] == ts[j].0
    ensures host.State() == FetchAll(old(host.State()), ts, remote)
  {
    rawPaths := [];
    var i := 0;
    while i < |ts|
      invariant 0 <= i <= |ts|
      invariant |rawPaths| == i && forall j :: 0 <= j < i ==> rawPaths[j] == ts[j].0
      invariant FetchAll(old(host.State()), ts, remote) == FetchAll(host.State(), ts[i..], remote)
    {
      host.Download(ts[i].0, ts[i].1, remote);
      assert ts[i..][1..] == ts[i + 1..];
      rawPaths := rawPaths + [ts[i].0];
      i := i + 1;
    }
    assert ts[i..] == [];
  }

  /** `download_raw_day(y, m, d, hrs)`: one download per hour, in order; the paths in the same order. */
  method DownloadRawDay(host: Host, remote: string -> Body, year: int, month: int, day: int, hrs: Option<seq<int>>)
    returns (rawPaths: seq<string>)
    modifies host
    ensures rawPaths == DayPaths(year, month, day, HoursOrDefault(hrs))
    ensures host.State() == FetchAll(old(host.State()), DayTargets(year, month, day, HoursOrDefault(hrs)), remote)
  {
    var hs := HoursOrDefault(hrs);
    rawPaths := DownloadTargets(host, remote, DayTargets(year, month, day, hs));
  }

  // ----- CSV export -----

  /** The file tree after exporting one dump to `data/csv/<csvName>.csv`, or the error that stops it. */
  function Export(files: map<string, File>, rawPath: string, csvName: string, noWrite: bool): Result<map<string, File>, Error> {
    if noWrite then Ok(files)
    else match GetDataframe(files, rawPath, None)
      case Err(e) => Err(e)
      case Ok(df) => Ok(files[CsvPath(csvName) := Csv(df)])
  }

  /** `write_df_to_csv(raw_path, csv_name, no_write)`: export unless `no_write`; the CSV path either way. */
  method WriteDfToCsv(host: Host, rawPath: string, csvName: string, noWrite: bool) returns (r: Result<string, Error>)
    modifies host
    ensures host.fetched == old(host.fetched)
    ensures match Export(old(host.files), rawPath, csvName, noWrite)
      case Ok(next) => r == Ok(CsvPath(csvName)) && host.files == next
      case Err(e) => r == Err(e) && host.files == old(host.files)
  {
    var csvPath := CsvPath(csvName);
    if !noWrite {
      var df := GetDataframe(host.files, rawPath, None);
      if df.Err? {
        return Err(df.error);
      }
      host.Write(csvPath, Csv(df.value));
    }
    r := Ok(csvPath);
  }

  /** `get_csv_path(raw_path, csv_name, no_write)`: the same as `write_df_to_csv` on both branches. */
  method GetCsvPath(host: Host, rawPath: string, csvName: string, noWrite: bool) returns (r: Result<string, Error>)
    modifies host
    ensures host.fetched == old(host.fetched)
    ensures match Export(old(host.files), rawPath, csvName, noWrite)
      case Ok(next) => r == Ok(CsvPath(csvName)) && host.files == next
      case Err(e) => r == Err(e) && host.files == old(host.files)
  {
    if noWrite {
      r := WriteDfToCsv(host, rawPath, csvName, noWrite);
      return;
    }
    r := WriteDfToCsv(host, rawPath, csvName, false);
  }

  /** The exports of a list of dumps, each to the CSV file named by its stem, up to the first error. */
  function ExportAll(files: map<string, File>, raws: seq<string>, noWrite: bool): (map<string, File>, Option<Error>)
    decreases |raws|
  {
    if raws == [] then (files, None)
    else match Export(files, raws[0], Stem(raws[0]), noWrite)
      case Err(e) => (files, Some(e))
      case Ok(next) => ExportAll(next, raws[1..], noWrite)
  }

  /** `get_csv_path_period(raw_paths, no_write)`: export every dump in order and collect the CSV paths. */
  method GetCsvPathPeriod(host: Host, rawPaths: seq<string>, noWrite: bool) returns (r: Result<seq<string>, Error>)
    modifies host
    ensures host.fetched == old(host.fetched)
    ensures (host.files, if r.Ok? then None else Some(r.error)) == ExportAll(old(host.files), rawPaths, noWrite)
    ensures r.Ok? ==> r.value == CsvPaths(rawPaths)
  {
    var csvPaths := [];
    var i := 0;
    while i < |rawPaths|
      invariant 0 <= i <= |rawPaths|
      invariant host.fetched == old(host.fetched)
      invariant csvPaths + CsvPaths(rawPaths[i..]) == CsvPaths(rawPaths)
      invariant ExportAll(old(host.files), rawPaths, noWrite) == ExportAll(host.files, rawPaths[i..], noWrite)
    {
      var csvFilename := Stem(rawPaths[i]);
      assert rawPaths[i..][1..] == rawPaths[i + 1..];
      var cp := GetCsvPath(host, rawPaths[i], csvFilename, noWrite);
      if cp.Err? {
        return Err(cp.error);
      }
      assert CsvPaths(rawPaths[i..]) == [cp.value] + CsvPaths(rawPaths[i + 1..]);
      csvPaths := csvPaths + [cp.value];
      i := i + 1;
    }
    assert rawPaths[i..] == [];
    assert csvPaths + [] == csvPaths;
    r := Ok(csvPaths);
  }

  /** With `no_write` every export is skipped: the file tree is unchanged. */
  lemma {:induction false} ExportAllNoWrite(files: map<string, File>, raws: seq<string>)
    ensures ExportAll(files, raws, true) == (files, None)
    decreases |raws|
  {
    if raws != [] {
      ExportAllNoWrite(files, raws[1..]);
    }
  }

  /** Exports write only to their CSV paths: every other file is left as it was. */
  lemma {:induction false} ExportAllKeeps(files: map<string, File>, raws: seq<string>, noWrite: bool, p: string)
    requires p !in CsvPaths(raws)
    ensures var after := ExportAll(files, raws, noWrite).0;
      (p in after <==> p in files) && (p in files ==> after[p] == files[p])
    decreases |raws|
  {
    if raws != [] {
      assert CsvPaths(raws) == [ExportPath(raws[0])] + CsvPaths(raws[1..]);
      match Export(files, raws[0], Stem(raws[0]), noWrite)
      case Err(_) =>
      case Ok(next) => ExportAllKeeps(next, raws[1..], noWrite, p);
    }
  }

  /** The rows of the frames read from a list of dumps, dump after dump; `None` when one fails. */
  function DumpRows(files: map<string, File>, raws: seq<string>): Option<seq<Row>>
    decreases |raws|
  {
    if raws == [] then Some([])
    else match GetDataframe(files, raws[0], None)
      case Err(_) => None
      case Ok(df) =>
        match DumpRows(files, raws[1..])
        case None => None
        case Some(rest) => Some(df.rows + rest)
  }

  /** The rows exist exactly when every dump yields a frame. */
  lemma {:induction false} DumpRowsReadable(files: map<string, File>, raws: seq<string>)
    ensures DumpRows(files, raws).Some? <==> forall i :: 0 <= i < |raws| ==> GetDataframe(files, raws[i], None).Ok?
    decreases |raws|
  {
    if raws != [] {
      DumpRowsReadable(files, raws[1..]);
      assert forall i :: 0 < i < |raws| ==> raws[i] == raws[1..][i - 1];
    }
  }

  /** The frames of dumps that are not written over agree between two file trees. */
  lemma {:induction false} DumpRowsLocal(f1: map<string, File>, f2: map<string, File>, raws: seq<string>)
    requires forall i :: 0 <= i < |raws| ==>
      (raws[i] in f1 <==> raws[i] in f2) && (raws[i] in f1 ==> f1[raws[i]] == f2[raws[i]])
    ensures DumpRows(f1, raws) == DumpRows(f2, raws)
    decreases |raws|
  {
    if raws != [] {
      DataframeLocal(f1, f2, raws[0], None);
      assert forall i :: 0 <= i < |raws[1..]| ==> raws[1..][i] == raws[i + 1];
      DumpRowsLocal(f1, f2, raws[1..]);
    }
  }

  /**
   * When the dumps do not disturb one another's exports, exporting succeeds
   * exactly when every dump can be read, and the CSV files then hold, file
   * after file, the rows of the dumps as they were before the export.
   */
  lemma {:induction false} ExportAllFrames(files: map<string, File>, raws: seq<string>)
    requires SeparateExports(raws)
    ensures ExportAll(files, raws, false).1.None? <==> DumpRows(files, raws).Some?
    ensures ExportAll(files, raws, false).1.None? ==>
      CsvRows(ExportAll(files, raws, false).0, CsvPaths(raws)) == DumpRows(files, raws)
    decreases |raws|
  {
    if raws != [] {
      var rest := raws[1..];
      match GetDataframe(files, raws[0], None)
      case Err(_) =>
      case Ok(df0) =>
        var c0 := ExportPath(raws[0]);
        var next := files[c0 := Csv(df0)];
        assert ExportAll(files, raws, false) == ExportAll(next, rest, false);
        forall i | 0 <= i < |rest|
          ensures (rest[i] in next <==> rest[i] in files) && (rest[i] in next ==> next[rest[i]] == files[rest[i]])
        {
          assert rest[i] in rest;
        }
        DumpRowsLocal(next, files, rest);
        ExportAllFrames(next, rest);
        if ExportAll(files, raws, false).1.None? {
          var after := ExportAll(next, rest, false).0;
          ExportAllKeeps(next, rest, false, c0);
          assert ReadCsv(after, c0) == Ok(df0);
          var paths := CsvPaths(raws);
          assert paths == [c0] + CsvPaths(rest);
          assert paths[1..] == CsvPaths(rest);
        }
    }
  }

  // ----- Tables -----

  /** `create_table(raw_path, table_name, con)`: drop the table if it exists and create it empty. */
  method CreateTable(files: map<string, File>, wh: Warehouse, rawPath: string, tableName: string) returns (err: Option<Error>)
    modifies wh
    ensures wh.journal == old(wh.journal)
    ensures match GetDataframe(files, rawPath, Some(100))
      case Ok(_) => err.None? && wh.tables == old(wh.tables)[tableName := []]
      case Err(e) => err == Some(e) && wh.tables == old(wh.tables)
  {
    var df := GetDataframe(files, rawPath, Some(100));
    if df.Err? {
      return Some(df.error);
    }
    wh.Drop(tableName);
    var _ := wh.Create(tableName);
    err := None;
  }

  /** `copy_from_csv(csv_path, table_name, con)`: append the CSV file's rows to the table. */
  method CopyFromCsv(files: map<string, File>, wh: Warehouse, csvPath: string, tableName: string) returns (err: Option<Error>)
    modifies wh
    ensures wh.journal == old(wh.journal)
    ensures match Append(files, old(wh.tables), csvPath, tableName)
      case Ok(next) => err.None? && wh.tables == next
      case Err(e) => err == Some(e) && wh.tables == old(wh.tables)
  {
    err := wh.Copy(files, csvPath, tableName);
  }

  /** `copy_from_csv_day(csv_paths, table_name, con)`: append the CSV files in order. */
  method CopyFromCsvDay(files: map<string, File>, wh: Warehouse, csvPaths: seq<string>, tableName: string) returns (err: Option<Error>)
    modifies wh
    ensures wh.journal == old(wh.journal)
    ensures (wh.tables, err) == AppendAll(files, old(wh.tables), csvPaths, tableName)
  {
    var i := 0;
    while i < |csvPaths|
      invariant 0 <= i <= |csvPaths|
      invariant wh.journal == old(wh.journal)
      invariant AppendAll(files, old(wh.tables), csvPaths, tableName) == AppendAll(files, wh.tables, csvPaths[i..], tableName)
    {
      assert csvPaths[i..][1..] == csvPaths[i + 1..];
      err := CopyFromCsv(files, wh, csvPaths[i], tableName);
      if err.Some? {
        return;
      }
      i := i + 1;
    }
    assert csvPaths[i..] == [];
    err := None;
  }

  /** The file tree, the catalog and the first error, if any, at the end of a load. */
  datatype LoadResult = LoadResult(files: map<string, File>, tables: Catalog, err: Option<Error>)

  /**
   * The steps of `main` after the downloads, on values: recreate the table
   * from the first dump (read with `nrows=100`), then export and append. The
   * file tree, the catalog, and the first error, if any.
   */
  function Load(files: map<string, File>, tables: Catalog, raws: seq<string>, table: string): LoadResult
    requires raws != []
  {
    match GetDataframe(files, raws[0], Some(100))
    case Err(e) => LoadResult(files, tables, Some(e))
    case Ok(_) => ExportAndCopy(files, tables[table := []], raws, table)
  }

  /** Once the table exists: export every dump, then append the CSV files in order. */
  function ExportAndCopy(files: map<string, File>, created: Catalog, raws: seq<string>, table: string): LoadResult {
    var exported := ExportAll(files, raws, false);
    if exported.1.Some? then LoadResult(exported.0, created, exported.1)
    else
      var appended := AppendAll(exported.0, created, CsvPaths(raws), table);
      LoadResult(exported.0, appended.0, appended.1)
  }

  /** Into an empty table, a successful export and copy puts exactly the rows of the CSV files. */
  lemma ExportAndCopyRows(files: map<string, File>, created: Catalog, raws: seq<string>, table: string)
    requires table in created && created[table] == []
    ensures var r := ExportAndCopy(files, created, raws, table);
      r.err.None? ==> (CsvRows(r.files, CsvPaths(raws)).Some?
        && r.tables == created[table := CsvRows(r.files, CsvPaths(raws)).value])
  {
    var exported := ExportAll(files, raws, false);
    if exported.1.None? {
      CsvRowsThenAppend(exported.0, created, CsvPaths(raws), table);
    }
  }

  /**
   * The load either stops at the first dump, unchanged and with that dump's
   * error, or empties the table and goes on to export and copy.
   */
  lemma LoadSteps(files: map<string, File>, tables: Catalog, raws: seq<string>, table: string)
    requires raws != []
    ensures var first := GetDataframe(files, raws[0], Some(100));
      && (first.Err? ==> Load(files, tables, raws, table) == LoadResult(files, tables, Some(first.error)))
      && (first.Ok? ==> Load(files, tables, raws, table) == ExportAndCopy(files, tables[table := []], raws, table))
  {
  }

  /** Appending to a freshly emptied table succeeds exactly when every CSV file is readable, and then holds their rows. */
  lemma CsvRowsThenAppend(files: map<string, File>, created: Catalog, csvs: seq<string>, table: string)
    requires table in created && created[table] == []
    ensures AppendAll(files, created, csvs, table).1.None? <==> CsvRows(files, csvs).Some?
    ensures CsvRows(files, csvs).Some? ==>
      AppendAll(files, created, csvs, table).0 == created[table := CsvRows(files, csvs).value]
  {
    if CsvRows(files, csvs).Some? {
      var rows := CsvRows(files, csvs).value;
      AppendAllRows(files, created, csvs, table);
      assert [] + rows == rows;
    } else {
      AppendAllFails(files, created, csvs, table);
    }
  }

  /**
   * For dumps that do not disturb one another's exports, export and copy into
   * an empty table succeeds exactly when every dump can be read, and the
   * table then holds the dumps' rows.
   */
  lemma ExportAndCopyFrames(files: map<string, File>, created: Catalog, raws: seq<string>, table: string)
    requires SeparateExports(raws) && table in created && created[table] == []
    ensures var r := ExportAndCopy(files, created, raws, table);
      && (r.err.None? <==> DumpRows(files, raws).Some?)
      && (r.err.None? ==> r.tables == created[table := DumpRows(files, raws).value])
  {
    var exported := ExportAll(files, raws, false);
    ExportAllFrames(files, raws);
    if exported.1.None? {
      CsvRowsThenAppend(exported.0, created, CsvPaths(raws), table);
    }
  }

  /** A dump that cannot be read even in part cannot be read in full. */
  lemma FirstDumpFails(files: map<string, File>, raws: seq<string>)
    requires raws != [] && GetDataframe(files, raws[0], Some(100)).Err?
    ensures DumpRows(files, raws).None?
  {
    DataframeOutcome(files, raws[0], Some(100));
    DataframeOutcome(files, raws[0], None);
  }

  /**
   * For dumps that do not disturb one another's exports, the load succeeds
   * exactly when every dump can be read, and the table then holds the dumps'
   * rows in order, whatever it held before; when the first dump cannot be
   * read, nothing changes.
   */
  lemma LoadRows(files: map<string, File>, tables: Catalog, raws: seq<string>, table: string)
    requires raws != [] && SeparateExports(raws)
    ensures var r := Load(files, tables, raws, table);
      && (r.err.None? <==> DumpRows(files, raws).Some?)
      && (r.err.None? ==> r.tables == tables[table := DumpRows(files, raws).value])
      && (GetDataframe(files, raws[0], Some(100)).Err? ==> r.files == files && r.tables == tables)
  {
    if GetDataframe(files, raws[0], Some(100)).Err? {
      LoadStopsEarly(files, tables, raws, table);
    } else {
      LoadSteps(files, tables, raws, table);
      CopyIntoEmptied(files, tables, raws, table);
    }
  }

  /** A first dump that cannot be read stops the load with nothing changed, and the dumps' rows do not exist. */
  lemma LoadStopsEarly(files: map<string, File>, tables: Catalog, raws: seq<string>, table: string)
    requires raws != [] && GetDataframe(files, raws[0], Some(100)).Err?
    ensures var r := Load(files, tables, raws, table);
      r.err.Some? && r.files == files && r.tables == tables && DumpRows(files, raws).None?
  {
    FirstDumpFails(files, raws);
  }

  /** Exporting and copying into the emptied table puts the dumps' rows there, or fails when one cannot be read. */
  lemma CopyIntoEmptied(files: map<string, File>, tables: Catalog, raws: seq<string>, table: string)
    requires SeparateExports(raws)
    ensures var r := ExportAndCopy(files, tables[table := []], raws, table);
      && (r.err.None? <==> DumpRows(files, raws).Some?)
      && (r.err.None? ==> r.tables == tables[table := DumpRows(files, raws).value])
  {
    var created := tables[table := []];
    ExportAndCopyFrames(files, created, raws, table);
    if DumpRows(files, raws).Some? {
      assert created[table := DumpRows(files, raws).value] == tables[table := DumpRows(files, raws).value];
    }
  }

  /**
   * A first dump whose name parses and whose rejected part comes after at
   * least 100 good lines: the 100-line read succeeds and the full read fails,
   * so the table has been dropped and created empty, no CSV file is written,
   * and the load ends with the parser error of that dump.
   */
  lemma LoadBrokenTail(files: map<string, File>, tables: Catalog, raws: seq<string>, table: string)
    requires raws != [] && raws[0] in files && files[raws[0]].Raw? && StemStamp(raws[0]).Some?
    requires !files[raws[0]].body.complete && |files[raws[0]].body.lines| >= 100
    ensures Load(files, tables, raws, table) == LoadResult(files, tables[table := []], Some(ParserError(raws[0])))
  {
    LoadSteps(files, tables, raws, table);
    DataframeOutcome(files, raws[0], Some(100));
    DataframeOutcome(files, raws[0], None);
  }

  /** The steps of `main` after the downloads, on the host and the database. */
  method LoadDay(host: Host, wh: Warehouse, rawPaths: seq<string>, tableName: string) returns (err: Option<Error>)
    requires rawPaths != []
    modifies host, wh
    ensures wh.journal == old(wh.journal) && host.fetched == old(host.fetched)
    ensures LoadResult(host.files, wh.tables, err) == Load(old(host.files), old(wh.tables), rawPaths, tableName)
  {
    err := CreateTable(host.files, wh, rawPaths[0], tableName);
    if err.Some? {
      return;
    }
    var csvPaths := GetCsvPathPeriod(host, rawPaths, false);
    if csvPaths.Err? {
      err := Some(csvPaths.error);
      return;
    }
    err := CopyFromCsvDay(host.files, wh, csvPaths.value, tableName);
  }

  /**
   * `main(year, month, day, connection_file, table_name, hours)`: download the
   * day's dumps, then load them into the table.
   */
  method Ingest(host: Host, wh: Warehouse, remote: string -> Body, year: int, month: int, day: int,
                tableName: string, hours: Option<seq<int>>) returns (err: Option<Error>)
    modifies host, wh
    ensures wh.journal == old(wh.journal)
    ensures var downloaded := FetchAll(old(host.State()), DayTargets(year, month, day, HoursOrDefault(hours)), remote);
      && host.fetched == downloaded.fetched
      && LoadResult(host.files, wh.tables, err)
         == Load(downloaded.files, old(wh.tables), DayPaths(year, month, day, HoursOrDefault(hours)), tableName)
  {
    var rawPaths := DownloadRawDay(host, remote, year, month, day, hours);
    err := LoadDay(host, wh, rawPaths, tableName);
  }

  /**
   * Loading a day's default 24 dumps succeeds exactly when every dump can be
   * read, and the table then holds their rows in hour order.
   */
  lemma DefaultDayRows(files: map<string, File>, tables: Catalog, year: int, month: int, day: int, table: string)
    requires 0 <= month < 100 && 0 <= day < 100
    ensures var raws := DayPaths(year, month, day, HoursOrDefault(None));
      var r := Load(files, tables, raws, table);
      && (r.err.None? <==> DumpRows(files, raws).Some?)
      && (r.err.None? ==> r.tables == tables[table := DumpRows(files, raws).value])
  {
    DefaultDaySeparate(year, month, day);
    LoadRows(files, tables, DayPaths(year, month, day, HoursOrDefault(None)), table);
  }

  /** For a date with month and day below 100, the default 24 hours never share a CSV file. */
  lemma DefaultDaySeparate(year: int, month: int, day: int)
    requires 0 <= month < 100 && 0 <= day < 100
    ensures SeparateExports(DayPaths(year, month, day, HoursOrDefault(None)))
  {
    DaySeparation(year, month, day, AllHours());
  }
}
