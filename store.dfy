/**
 * What the pipeline works against: the local file tree holding downloaded
 * dumps and exported CSV files, the dump server (an uninterpreted function
 * from URL to body), and the PostgreSQL catalog of tables together with the
 * statements a session has sent.
 */
module Store {
  import opened Wrappers
  import opened Calendar

  /** One whitespace-separated line of an hourly pageview dump. */
  datatype DumpLine = DumpLine(domainCode: string, pageTitle: string, countViews: int, totalResponseSize: int)

  /**
   * What the dump server sends back for a URL: the well-formed lines the dump
   * reader gets through, and whether they are the whole dump. When
   * `complete` is false, what follows `lines` (a line with extra fields, a
   * cut-off compressed tail) is rejected by the reader; `Lines([], false)`
   * is a dump that cannot be read at all.
   */
  datatype Body = Lines(lines: seq<DumpLine>, complete: bool)

  /**
   * A frame cell: a string, an integer, or the text `str(time)` of a
   * timestamp, kept as the datetime it renders (`Calendar.FormatDateTime`,
   * which `Calendar.FormatDateTimeInjective` shows loses nothing).
   */
  datatype Cell = Text(text: string) | Number(value: int) | StampText(time: DateTime)

  type Row = seq<Cell>

  /** A data frame: column names and rows. */
  datatype Frame = Frame(columns: seq<string>, rows: seq<Row>)

  /** A file on disk: a downloaded dump or an exported CSV file. */
  datatype File = Raw(body: Body) | Csv(frame: Frame)

  /** The exceptions that end a run. */
  datatype Error =
    | FileNotFound(path: string)
    | ParserError(path: string)
    | ValueError(text: string)
    | UndefinedTable(name: string)
    | StatementFailed(sql: string)
    | OverflowError

  /** The local file tree and the URLs requested so far, oldest first. */
  datatype Cache = Cache(files: map<string, File>, fetched: seq<string>)

  /** The tables of the database and the rows each holds. */
  type Catalog = map<string, seq<Row>>

  /** What a database session has done, in order. */
  datatype Event = Executed(sql: string) | Committed

  // ----- The download cache -----

  /** Download `url` to `path` unless `path` already exists (its contract is `FetchCaches`). */
  function Fetch(c: Cache, path: string, url: string, remote: string -> Body): Cache {
    if path in c.files then c
    else Cache(c.files[path := Raw(remote(url))], c.fetched + [url])
  }

  /**
   * After a download the path exists; a present file is never overwritten, a
   * new one holds what the server sent, nothing else appears, and the server
   * is asked exactly when the file was absent.
   */
  lemma FetchCaches(c: Cache, path: string, url: string, remote: string -> Body)
    ensures var r := Fetch(c, path, url, remote);
      && path in r.files
      && (forall p :: p in c.files ==> p in r.files && r.files[p] == c.files[p])
      && (path !in c.files ==> r.files[path] == Raw(remote(url)))
      && (forall p :: p in r.files ==> p in c.files || p == path)
      && r.fetched == if path in c.files then c.fetched else c.fetched + [url]
  {
  }

  /** Downloading the same file twice does no more than downloading it once. */
  lemma FetchIdempotent(c: Cache, path: string, url: string, remote: string -> Body)
    ensures Fetch(Fetch(c, path, url, remote), path, url, remote) == Fetch(c, path, url, remote)
  {
  }

  /** The downloads of a list of `(path, url)` targets, first to last. */
  function FetchAll(c: Cache, ts: seq<(string, string)>, remote: string -> Body): Cache
    decreases |ts|
  {
    if ts == [] then c else FetchAll(Fetch(c, ts[0].0, ts[0].1, remote), ts[1..], remote)
  }

  /**
   * After the downloads every target path exists, every file that existed is
   * unchanged, nothing but target paths appears, and the request log only grows.
   */
  lemma {:induction false} FetchAllCovers(c: Cache, ts: seq<(string, string)>, remote: string -> Body)
    ensures var r := FetchAll(c, ts, remote);
      && (forall i :: 0 <= i < |ts| ==> ts[i].0 in r.files)
      && (forall p :: p in c.files ==> p in r.files && r.files[p] == c.files[p])
      && (forall p :: p in r.files ==> p in c.files || exists i :: 0 <= i < |ts| && ts[i].0 == p)
      && |c.fetched| <= |r.fetched| && r.fetched[..|c.fetched|] == c.fetched
    decreases |ts|
  {
    if ts != [] {
      var c1 := Fetch(c, ts[0].0, ts[0].1, remote);
      FetchCaches(c, ts[0].0, ts[0].1, remote);
      FetchAllCovers(c1, ts[1..], remote);
      var r := FetchAll(c, ts, remote);
      forall i | 0 <= i < |ts| ensures ts[i].0 in r.files {
        if i > 0 {
          assert ts[i].0 == ts[1..][i - 1].0;
        }
      }
      forall p | p in r.files ensures p in c.files || exists i :: 0 <= i < |ts| && ts[i].0 == p {
        if p !in c1.files {
          var j :| 0 <= j < |ts[1..]| && ts[1..][j].0 == p;
          assert ts[j + 1].0 == p;
        }
      }
      assert r.fetched[..|c1.fetched|] == c1.fetched;
      assert c1.fetched[..|c.fetched|] == c.fetched;
    }
  }

  /** When every target already exists, the downloads change nothing and ask the server nothing. */
  lemma {:induction false} FetchAllNoop(c: Cache, ts: seq<(string, string)>, remote: string -> Body)
    requires forall i :: 0 <= i < |ts| ==> ts[i].0 in c.files
    ensures FetchAll(c, ts, remote) == c
    decreases |ts|
  {
    if ts != [] {
      assert forall i :: 0 <= i < |ts[1..]| ==> ts[1..][i] == ts[i + 1];
      FetchAllNoop(c, ts[1..], remote);
    }
  }

  /** A second run of the same downloads finds everything cached: it changes nothing and fetches nothing. */
  lemma FetchAllIdempotent(c: Cache, ts: seq<(string, string)>, remote: string -> Body)
    ensures FetchAll(FetchAll(c, ts, remote), ts, remote) == FetchAll(c, ts, remote)
  {
    FetchAllCovers(c, ts, remote);
    FetchAllNoop(FetchAll(c, ts, remote), ts, remote);
  }

  // ----- Reading files -----

  /** The first `n` items of `s`, or all of them (`nrows=None`). */
  function Take<T>(s: seq<T>, n: Option<nat>): (r: seq<T>)
    ensures |r| == if n.Some? && n.value < |s| then n.value else |s|
    ensures r == s[..|r|]
  {
    if n.Some? && n.value < |s| then s[..n.value] else s
  }

  /** A read of `nrows` lines at most stops before the rejected part, or there is none. */
  predicate Readable(b: Body, nrows: Option<nat>) {
    b.complete || (nrows.Some? && nrows.value <= |b.lines|)
  }

  /**
   * Read a downloaded dump, `nrows` lines at most. Every rejection is reported
   * as `ParserError`, whatever exception the reader would raise for it.
   */
  function ReadDump(files: map<string, File>, path: string, nrows: Option<nat>): (r: Result<seq<DumpLine>, Error>)
    ensures r.Ok? <==> path in files && files[path].Raw? && Readable(files[path].body, nrows)
    ensures path !in files ==> r == Err(FileNotFound(path))
    ensures path in files && r.Err? ==> r == Err(ParserError(path))
    ensures r.Ok? ==> r.value == Take(files[path].body.lines, nrows)
  {
    if path !in files then Err(FileNotFound(path))
    else match files[path]
      case Raw(body) => if Readable(body, nrows) then Ok(Take(body.lines, nrows)) else Err(ParserError(path))
      case _ => Err(ParserError(path))
  }

  /** Read an exported CSV file back as its header and rows. */
  function ReadCsv(files: map<string, File>, path: string): (r: Result<Frame, Error>)
    ensures r.Ok? <==> path in files && files[path].Csv?
    ensures r.Ok? ==> files[path] == Csv(r.value)
    ensures path !in files ==> r == Err(FileNotFound(path))
  {
    if path !in files then Err(FileNotFound(path))
    else match files[path]
      case Csv(frame) => Ok(frame)
      case Raw(_) => Err(ParserError(path))
  }

  // ----- Bulk append -----

  /** `COPY table FROM` a CSV file: the file's rows go after the table's rows. */
  function Append(files: map<string, File>, tables: Catalog, csv: string, table: string): (r: Result<Catalog, Error>)
    ensures r.Ok? <==> ReadCsv(files, csv).Ok? && table in tables
    ensures r.Ok? ==> r.value == tables[table := tables[table] + ReadCsv(files, csv).value.rows]
  {
    match ReadCsv(files, csv)
    case Err(e) => Err(e)
    case Ok(frame) =>
      if table !in tables then Err(UndefinedTable(table))
      else Ok(tables[table := tables[table] + frame.rows])
  }

  /** The rows of a list of CSV files, file after file; `None` when one cannot be read. */
  function CsvRows(files: map<string, File>, paths: seq<string>): Option<seq<Row>>
    decreases |paths|
  {
    if paths == [] then Some([])
    else match ReadCsv(files, paths[0])
      case Err(_) => None
      case Ok(frame) =>
        match CsvRows(files, paths[1..])
        case None => None
        case Some(rest) => Some(frame.rows + rest)
  }

  /** The rows exist exactly when every CSV file can be read. */
  lemma {:induction false} CsvRowsReadable(files: map<string, File>, paths: seq<string>)
    ensures CsvRows(files, paths).Some? <==> forall i :: 0 <= i < |paths| ==> ReadCsv(files, paths[i]).Ok?
    decreases |paths|
  {
    if paths != [] {
      CsvRowsReadable(files, paths[1..]);
      assert forall i :: 0 < i < |paths| ==> paths[i] == paths[1..][i - 1];
    }
  }

  /** The catalog after appending a list of CSV files to one table in order, and the first error, if any. */
  function AppendAll(files: map<string, File>, tables: Catalog, csvs: seq<string>, table: string): (Catalog, Option<Error>)
    decreases |csvs|
  {
    if csvs == [] then (tables, None)
    else match Append(files, tables, csvs[0], table)
      case Err(e) => (tables, Some(e))
      case Ok(next) => AppendAll(files, next, csvs[1..], table)
  }

  /**
   * Appending readable CSV files to an existing table leaves that table holding
   * its old rows followed by every file's rows in order, and no other table changes.
   */
  lemma {:induction false} AppendAllRows(files: map<string, File>, tables: Catalog, csvs: seq<string>, table: string)
    requires table in tables && CsvRows(files, csvs).Some?
    ensures AppendAll(files, tables, csvs, table)
      == (tables[table := tables[table] + CsvRows(files, csvs).value], None)
    decreases |csvs|
  {
    if csvs == [] {
      assert tables[table] + [] == tables[table];
      assert tables[table := tables[table]] == tables;
    } else {
      assert ReadCsv(files, csvs[0]).Ok?;
      var next := tables[table := tables[table] + ReadCsv(files, csvs[0]).value.rows];
      assert CsvRows(files, csvs[1..]).Some?;
      AppendAllRows(files, next, csvs[1..], table);
      var first, rest := ReadCsv(files, csvs[0]).value.rows, CsvRows(files, csvs[1..]).value;
      assert CsvRows(files, csvs).value == first + rest;
      assert Append(files, tables, csvs[0], table) == Ok(next);
      assert next[table] + rest == tables[table] + (first + rest);
      assert next[table := next[table] + rest] == tables[table := tables[table] + (first + rest)];
    }
  }

  /** The first unreadable CSV file stops the appends with its error. */
  lemma {:induction false} AppendAllFails(files: map<string, File>, tables: Catalog, csvs: seq<string>, table: string)
    requires table in tables && CsvRows(files, csvs).None?
    ensures AppendAll(files, tables, csvs, table).1.Some?
    decreases |csvs|
  {
    if ReadCsv(files, csvs[0]).Ok? {
      assert CsvRows(files, csvs[1..]).None?;
      AppendAllFails(files, tables[table := tables[table] + ReadCsv(files, csvs[0]).value.rows], csvs[1..], table);
    }
  }

  // ----- Mutable state -----

  /** The machine the pipeline runs on: its file tree and the requests it has sent. */
  class Host {
    var files: map<string, File>
    var fetched: seq<string>

    constructor (files0: map<string, File>)
      ensures files == files0 && fetched == []
    {
      files := files0;
      fetched := [];
    }

    function State(): Cache
      reads this
    {
      Cache(files, fetched)
    }

    /** `if not os.path.exists(path)`: stream `url` into `path`. */
    method Download(path: string, url: string, remote: string -> Body)
      modifies this
      ensures State() == Fetch(old(State()), path, url, remote)
    {
      if path !in files {
        files := files[path := Raw(remote(url))];
        fetched := fetched + [url];
      }
    }

    /** Create or overwrite one file. */
    method Write(path: string, f: File)
      modifies this
      ensures files == old(files)[path := f] && fetched == old(fetched)
    {
      files := files[path := f];
    }
  }

  /** The PostgreSQL database: its tables, and the statements and commits of the session. */
  class Warehouse {
    var tables: Catalog
    var journal: seq<Event>

    constructor (tables0: Catalog)
      ensures tables == tables0 && journal == []
    {
      tables := tables0;
      journal := [];
    }

    /** `DROP TABLE IF EXISTS table` (also `DROP TABLE table` on a table that exists). */
    method Drop(table: string)
      modifies this
      ensures tables == old(tables) - {table} && journal == old(journal)
    {
      tables := tables - {table};
    }

    /** `CREATE TABLE table`: a new empty table, or `DuplicateTable` (`created` false) when it exists. */
    method Create(table: string) returns (created: bool)
      modifies this
      ensures created == (table !in old(tables)) && journal == old(journal)
      ensures tables == if created then old(tables)[table := []] else old(tables)
    {
      created := table !in tables;
      if created {
        tables := tables[table := []];
      }
    }

    /** `COPY table FROM` a CSV file, then commit. */
    method Copy(files: map<string, File>, csv: string, table: string) returns (err: Option<Error>)
      modifies this
      ensures journal == old(journal)
      ensures match Append(files, old(tables), csv, table)
        case Ok(next) => err.None? && tables == next
        case Err(e) => err == Some(e) && tables == old(tables)
    {
      var r := Append(files, tables, csv, table);
      match r {
        case Ok(next) =>
          tables := next;
          err := None;
        case Err(e) =>
          err := Some(e);
      }
    }

    /** `cur.execute(sql)`; `rejects` says which statements the server refuses. */
    method Execute(sql: string, rejects: string -> bool) returns (ok: bool)
      modifies this
      ensures ok == !rejects(sql) && tables == old(tables)
      ensures journal == old(journal) + (if ok then [Executed(sql)] else [])
    {
      ok := !rejects(sql);
      if ok {
        journal := journal + [Executed(sql)];
      }
    }

    /** `con.commit()`. */
    method Commit()
      modifies this
      ensures tables == old(tables) && journal == old(journal) + [Committed]
    {
      journal := journal + [Committed];
    }
  }
}
