/**
 * The post-download size check: every local dump of a day is compared with
 * the size the dump site reports for the URL rebuilt from the local path.
 * The HEAD request and `os.path.getsize` are parameters: `remote` gives the
 * `content-length` the site reports for a URL, `size` the size of a local file.
 */
module Testing {
  import opened Wrappers
  import opened Decimal
  import opened Calendar
  import opened Text
  import opened Store
  import opened Naming

  /** The pattern `data/raw/pageviews-%Y%m%d-%H0000.gz` a local path is parsed with. */
  const PathPattern: seq<Directive> :=
    [Literal("data/raw/pageviews-"), Year, Month, Day, Literal("-"), Hour, Literal("0000.gz")]

  /** `f"{prefix}/pageviews-{year}{month:02d}{day:02d}-{hour:02d}0000.gz"` with `prefix = "data/raw"`. */
  function CheckedPath(year: int, month: int, day: int, hour: int): string {
    CheckedName(IntStr(year), Pad2(month), Pad2(day), Pad2(hour))
  }

  /** The checked path around its rendered year, month, day and hour. */
  function CheckedName(y: string, m: string, d: string, h: string): string {
    "data/raw/pageviews-" + y + m + d + "-" + h + "0000.gz"
  }

  /**
   * The URL `_compare_loc_rm` rebuilds from a local path: the year and month
   * parsed from the path, then the path's last segment. A path the pattern
   * does not accept makes `strptime` raise.
   */
  function RemoteUrl(rawPath: string): Result<string, Error> {
    match Strptime(rawPath, PathPattern)
    case None => Err(ValueError(rawPath))
    case Some(ts) => Ok(UrlPrefix(ts.year, ts.month) + "/" + LastSegment(rawPath, '/'))
  }

  /** The local size: the file's size, or -1 when it is missing. */
  function LocalSize(files: map<string, File>, path: string, size: File -> nat): int {
    if path in files then size(files[path]) else -1
  }

  /** `_compare_loc_rm(raw_filepath)`: whether the remote and the local size agree. */
  function CompareLocRm(files: map<string, File>, rawPath: string, remote: string -> nat, size: File -> nat)
    : Result<bool, Error>
  {
    match RemoteUrl(rawPath)
    case Err(e) => Err(e)
    case Ok(url) => Ok(remote(url) == LocalSize(files, rawPath, size))
  }

  // ----- Properties -----

  /**
   * The comparison fails exactly when the path does not parse; it passes
   * exactly when the file exists and its size is the one the site reports,
   * so a missing file never passes.
   */
  lemma CompareCases(files: map<string, File>, rawPath: string, remote: string -> nat, size: File -> nat)
    ensures var r := CompareLocRm(files, rawPath, remote, size);
      && (r.Ok? <==> Strptime(rawPath, PathPattern).Some?)
      && (r.Ok? ==> (r.value <==> rawPath in files && size(files[rawPath]) == remote(RemoteUrl(rawPath).value)))
      && (rawPath !in files ==> r != Ok(true))
  {
  }

  /** The checked name is the dump name under `data/raw/`, with the `.gz` extension. */
  lemma CheckedNameLayout(y: string, m: string, d: string, h: string)
    ensures CheckedName(y, m, d, h) == "data/raw/" + DumpName(y, m, d, h) + ".gz"
  {
    var x := y + m + d + "-" + h;
    Regroup("data/raw/", "pageviews-", x, "0000", ".gz");
    assert "data/raw/" + "pageviews-" == "data/raw/pageviews-";
    assert "0000" + ".gz" == "0000.gz";
    assert "pageviews-" + y + m + d + "-" + h + "0000" == "pageviews-" + x + "0000";
    assert "data/raw/pageviews-" + y + m + d + "-" + h + "0000.gz" == "data/raw/pageviews-" + x + "0000.gz";
  }

  /** `a + (b + x + c) + e` with the outer literals joined to the inner ones. */
  lemma Regroup(a: string, b: string, x: string, c: string, e: string)
    ensures a + (b + x + c) + e == (a + b) + x + (c + e)
  {
  }

  /** The path the checker builds is the path the downloader stores the dump at. */
  lemma CheckedPathIsRawPath(year: int, month: int, day: int, hour: int)
    ensures CheckedPath(year, month, day, hour) == RawPath(year, month, day, hour)
  {
    RawPathLayout(year, month, day, hour);
    CheckedNameLayout(IntStr(year), Pad2(month), Pad2(day), Pad2(hour));
  }

  /** The checked name cut along the path pattern's directives. */
  function CheckedPieces(y: string, m: string, d: string, h: string): seq<string> {
    ["data/raw/pageviews-", y, m, d, "-", h, "0000.gz"]
  }

  lemma CheckedPiecesConcat(y: string, m: string, d: string, h: string)
    ensures Concat(CheckedPieces(y, m, d, h)) == CheckedName(y, m, d, h)
  {
    var ps := CheckedPieces(y, m, d, h);
    calc {
      Concat(ps);
      "data/raw/pageviews-" + Concat(ps[1..]);
      { assert ps[1..][1..] == ps[2..]; }
      "data/raw/pageviews-" + (y + Concat(ps[2..]));
      { assert ps[2..][1..] == ps[3..]; }
      "data/raw/pageviews-" + (y + (m + Concat(ps[3..])));
      { assert ps[3..][1..] == ps[4..]; }
      "data/raw/pageviews-" + (y + (m + (d + Concat(ps[4..]))));
      { assert ps[4..][1..] == ps[5..]; }
      "data/raw/pageviews-" + (y + (m + (d + ("-" + Concat(ps[5..])))));
      { assert ps[5..][1..] == ps[6..]; }
      "data/raw/pageviews-" + (y + (m + (d + ("-" + (h + Concat(ps[6..]))))));
      { assert ps[6..][1..] == []; assert Concat(ps[6..]) == "0000.gz" + Concat([]); }
      "data/raw/pageviews-" + (y + (m + (d + ("-" + (h + "0000.gz")))));
      CheckedName(y, m, d, h);
    }
  }

  lemma CheckedPiecesFill(y: string, m: string, d: string, h: string)
    requires |y| == 4 && |m| == 2 && |d| == 2 && |h| == 2
    requires AllDigits(y) && AllDigits(m) && AllDigits(d) && AllDigits(h)
    ensures AllFit(CheckedPieces(y, m, d, h), PathPattern)
    ensures FillAll(Epoch, PathPattern, CheckedPieces(y, m, d, h))
      == DateTime(ParseNat(y), ParseNat(m), ParseNat(d), ParseNat(h), 0, 0)
  {
    var ps := CheckedPieces(y, m, d, h);
    assert PathPattern[1..][1..] == PathPattern[2..] && ps[1..][1..] == ps[2..];
    assert PathPattern[2..][1..] == PathPattern[3..] && ps[2..][1..] == ps[3..];
    assert PathPattern[3..][1..] == PathPattern[4..] && ps[3..][1..] == ps[4..];
    assert PathPattern[4..][1..] == PathPattern[5..] && ps[4..][1..] == ps[5..];
    assert PathPattern[5..][1..] == PathPattern[6..] && ps[5..][1..] == ps[6..];
    assert PathPattern[6..][1..] == [] && ps[6..][1..] == [];
  }

  /** The path pattern reads the four fields of a checked name, and zero minutes and seconds. */
  lemma ScanCheckedName(y: string, m: string, d: string, h: string)
    requires |y| == 4 && |m| == 2 && |d| == 2 && |h| == 2
    requires AllDigits(y) && AllDigits(m) && AllDigits(d) && AllDigits(h)
    ensures Scan(CheckedName(y, m, d, h), PathPattern, Epoch)
      == Some(DateTime(ParseNat(y), ParseNat(m), ParseNat(d), ParseNat(h), 0, 0))
  {
    CheckedPiecesFill(y, m, d, h);
    CheckedPiecesConcat(y, m, d, h);
    ScanPieces(CheckedPieces(y, m, d, h), PathPattern, Epoch);
  }

  /** Parsing a dump's local path recovers its date and hour, at minute and second 0. */
  lemma ParseRawPath(year: int, month: int, day: int, hour: int)
    requires 1000 <= year && ValidDate(Date(year, month, day)) && 0 <= hour < 24
    ensures Strptime(RawPath(year, month, day, hour), PathPattern) == Some(DateTime(year, month, day, hour, 0, 0))
  {
    Pad2Shape(month); Pad2Shape(day); Pad2Shape(hour);
    YearWidth(year);
    ScanCheckedName(IntStr(year), Pad2(month), Pad2(day), Pad2(hour));
    CheckedPathIsRawPath(year, month, day, hour);
    ScanAccepted(RawPath(year, month, day, hour), PathPattern, DateTime(year, month, day, hour, 0, 0));
  }

  /** The last segment of `data/raw/<name>.gz` is `<name>.gz` when `name` holds no `/`. */
  lemma LastSegmentOfRaw(name: string)
    requires '/' !in name
    ensures LastSegment("data/raw/" + name + ".gz", '/') == name + ".gz"
  {
    assert "data/raw/" + name + ".gz" == "data/raw" + ['/'] + (name + ".gz");
    assert '/' !in ".gz";
    LastSegmentOf("data/raw", '/', name + ".gz");
  }

  /** The URL rebuilt from a dump's local path is the URL the downloader fetched it from. */
  lemma RemoteUrlOfRawPath(year: int, month: int, day: int, hour: int)
    requires 1000 <= year && ValidDate(Date(year, month, day)) && 0 <= hour < 24
    ensures RemoteUrl(RawPath(year, month, day, hour)) == Ok(RawUrl(year, month, day, hour))
  {
    var name := RawFilename(year, month, day, hour);
    ParseRawPath(year, month, day, hour);
    RawPathLayout(year, month, day, hour);
    FilenameIsPlain(year, month, day, hour);
    LastSegmentOfRaw(name);
    RemoteUrlOf(RawPath(year, month, day, hour), DateTime(year, month, day, hour, 0, 0), name);
    Assoc(UrlPrefix(year, month) + "/", name, ".gz");
  }

  lemma Assoc(a: string, b: string, c: string)
    ensures a + b + c == a + (b + c)
  {
  }

  /** The URL rebuilt from a path that parses to `ts` and ends in `<name>.gz`. */
  lemma RemoteUrlOf(path: string, ts: DateTime, name: string)
    requires Strptime(path, PathPattern) == Some(ts) && LastSegment(path, '/') == name + ".gz"
    ensures RemoteUrl(path) == Ok(UrlPrefix(ts.year, ts.month) + "/" + (name + ".gz"))
  {
  }

  /** For a dump of a valid date, the check passes exactly when the local copy has the size the site reports for its URL. */
  lemma CompareRawPath(files: map<string, File>, year: int, month: int, day: int, hour: int,
                       remote: string -> nat, size: File -> nat)
    requires 1000 <= year && ValidDate(Date(year, month, day)) && 0 <= hour < 24
    ensures var p := RawPath(year, month, day, hour);
      CompareLocRm(files, CheckedPath(year, month, day, hour), remote, size)
        == Ok(p in files && size(files[p]) == remote(RawUrl(year, month, day, hour)))
  {
    CheckedPathIsRawPath(year, month, day, hour);
    RemoteUrlOfRawPath(year, month, day, hour);
  }

  /** Hour `h` is the first of the day's hours whose check fails, with error `e`. */
  predicate FirstFailure(check: int -> Result<bool, Error>, h: int, e: Error) {
    && 0 <= h < 24
    && (forall k :: 0 <= k < h ==> check(k).Ok?)
    && check(h) == Err(e)
  }

  /**
   * The hour loop of `check_file_content`: run `check` for hours 0 to 23 in
   * order; `r` holds the verdicts, or the error of the first failing hour.
   */
  method CheckHours(check: int -> Result<bool, Error>) returns (r: Result<seq<bool>, Error>)
    ensures r.Ok? <==> forall h :: 0 <= h < 24 ==> check(h).Ok?
    ensures r.Ok? ==> |r.value| == 24 && forall h :: 0 <= h < 24 ==> Ok(r.value[h]) == check(h)
    ensures r.Err? ==> exists h :: FirstFailure(check, h, r.error)
  {
    var verdicts := [];
    for hour := 0 to 24
      invariant |verdicts| == hour
      invariant forall k :: 0 <= k < hour ==> Ok(verdicts[k]) == check(k)
    {
      var c := check(hour);
      if c.Err? {
        assert FirstFailure(check, hour, c.error);
        return Err(c.error);
      }
      verdicts := verdicts + [c.value];
    }
    r := Ok(verdicts);
  }

  /**
   * `check_file_content(year, month, day)`: compare the paths of hours 0 to
   * 23 in order; `r` holds the verdicts printed as PASS or FAIL, or the
   * error of the first path that does not parse.
   */
  method CheckFileContent(files: map<string, File>, year: int, month: int, day: int,
                          remote: string -> nat, size: File -> nat) returns (r: Result<seq<bool>, Error>)
    ensures var check := h => CompareLocRm(files, CheckedPath(year, month, day, h), remote, size);
      && (r.Ok? <==> forall h :: 0 <= h < 24 ==> check(h).Ok?)
      && (r.Ok? ==> |r.value| == 24 && forall h :: 0 <= h < 24 ==> Ok(r.value[h]) == check(h))
      && (r.Err? ==> exists h :: FirstFailure(check, h, r.error))
  {
    r := CheckHours(h => CompareLocRm(files, CheckedPath(year, month, day, h), remote, size));
  }
}
