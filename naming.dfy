/**
 * Names the pipeline derives from a date and an hour: the Wikimedia dump
 * file name, its download URL, the local raw and CSV paths, the "stem" read
 * back from a path, the timestamp parsed from a stem, and the per-day and
 * per-year table names.
 */
module Naming {
  import opened Wrappers
  import opened Decimal
  import opened Calendar
  import opened Text

  const RawDir := "data/raw"
  const CsvDir := "data/csv"
  const DumpSite := "https://dumps.wikimedia.org/other/pageviews/"

  /** The pattern `pageviews-%Y%m%d-%H%M%S` the stem of a dump file is parsed with. */
  const StampPattern: seq<Directive> :=
    [Literal("pageviews-"), Year, Month, Day, Literal("-"), Hour, Minute, Second]

  /** Python's `strptime` starting point: 1900-01-01 00:00:00. */
  const Epoch := DateTime(1900, 1, 1, 0, 0, 0)

  /** `f"pageviews-{year}{month:02d}{day:02d}-{hr:02d}0000"`. */
  function RawFilename(year: int, month: int, day: int, hour: int): string {
    DumpName(IntStr(year), Pad2(month), Pad2(day), Pad2(hour))
  }

  /** The dump file name around its rendered year, month, day and hour. */
  function DumpName(y: string, m: string, d: string, h: string): string {
    "pageviews-" + y + m + d + "-" + h + "0000"
  }

  /** `f"https://dumps.wikimedia.org/other/pageviews/{year}/{year}-{month:02d}"`. */
  function UrlPrefix(year: int, month: int): string {
    DumpSite + IntStr(year) + "/" + IntStr(year) + "-" + Pad2(month)
  }

  /** The remote location of one hourly dump. */
  function RawUrl(year: int, month: int, day: int, hour: int): string {
    UrlPrefix(year, month) + "/" + RawFilename(year, month, day, hour) + ".gz"
  }

  /** `os.path.join("data/raw", raw_filename + ".gz")` (laid out by `RawPathLayout`). */
  function RawPath(year: int, month: int, day: int, hour: int): string {
    Join(RawDir, RawFilename(year, month, day, hour) + ".gz")
  }

  /** `path.split("/")[-1].split(".")[0]`: the file name without directory or extension. */
  function Stem(path: string): string {
    FirstSegment(LastSegment(path, '/'), '.')
  }

  /** `os.path.join("data/csv", f"{name}.csv")` (laid out by `CsvPathLayout`). */
  function CsvPath(name: string): string {
    Join(CsvDir, name + ".csv")
  }

  /** The timestamp read from a dump path: its stem parsed with the stamp pattern. */
  function StemStamp(path: string): Option<DateTime> {
    Strptime(Stem(path), StampPattern)
  }

  /** `range(24)`. */
  function AllHours(): seq<int> {
    seq(24, h => h)
  }

  /** The local paths of one day's dumps for the hours `hs`, in order. */
  function DayPaths(year: int, month: int, day: int, hs: seq<int>): seq<string> {
    seq(|hs|, i requires 0 <= i < |hs| => RawPath(year, month, day, hs[i]))
  }

  /** The `(local path, URL)` pairs of one day's dumps for the hours `hs`, in order. */
  function DayTargets(year: int, month: int, day: int, hs: seq<int>): seq<(string, string)> {
    seq(|hs|, i requires 0 <= i < |hs| => (RawPath(year, month, day, hs[i]), RawUrl(year, month, day, hs[i])))
  }

  /** The CSV file a dump is exported to: `data/csv/<stem>.csv`. */
  function ExportPath(raw: string): string {
    CsvPath(Stem(raw))
  }

  /** The CSV files a list of dumps is exported to, in order. */
  function CsvPaths(raws: seq<string>): seq<string>
    decreases |raws|
  {
    if raws == [] then [] else [ExportPath(raws[0])] + CsvPaths(raws[1..])
  }

  /**
   * Dumps exported in order do not disturb one another: each export goes to a
   * CSV file no later dump is exported to, and that is not a dump still to be read.
   */
  predicate SeparateExports(raws: seq<string>)
    decreases |raws|
  {
    raws == [] ||
      (ExportPath(raws[0]) !in CsvPaths(raws[1..]) && ExportPath(raws[0]) !in raws[1..] && SeparateExports(raws[1..]))
  }

  /** `f"pageview_raw_{y}{m:02d}{d:02d}"`. */
  function RawTableName(year: int, month: int, day: int): string {
    "pageview_raw_" + IntStr(year) + Pad2(month) + Pad2(day)
  }

  /** `f"pageview_{y}{m:02d}{d:02d}"`. */
  function AggTableName(year: int, month: int, day: int): string {
    "pageview_" + IntStr(year) + Pad2(month) + Pad2(day)
  }

  /** `f"pageview_{y}"`. */
  function DestTableName(year: int): string {
    "pageview_" + IntStr(year)
  }

  // ----- Properties -----

  /** A dump file name starts with the letter `p`, so it is a relative path. */
  lemma DumpNameStart(y: string, m: string, d: string, h: string)
    ensures |DumpName(y, m, d, h)| > 0 && DumpName(y, m, d, h)[0] == 'p'
  {
    assert DumpName(y, m, d, h) == "pageviews-" + (y + m + d + "-" + h + "0000");
  }

  /** Joining a relative `name + ext` under a plain directory inserts one `/`. */
  lemma JoinRelative(dir: string, name: string, ext: string)
    requires dir != [] && dir[|dir| - 1] != '/' && name != [] && name[0] != '/'
    ensures Join(dir, name + ext) == dir + "/" + name + ext
  {
    JoinPlain(dir, name + ext);
  }

  /** A raw path is the dump's file name under `data/raw/`, with the `.gz` extension. */
  lemma RawPathLayout(year: int, month: int, day: int, hour: int)
    ensures RawPath(year, month, day, hour) == "data/raw/" + RawFilename(year, month, day, hour) + ".gz"
  {
    DumpNameStart(IntStr(year), Pad2(month), Pad2(day), Pad2(hour));
    JoinRelative(RawDir, RawFilename(year, month, day, hour), ".gz");
  }

  /** A relative name's CSV path is the name under `data/csv/`, with the `.csv` extension. */
  lemma CsvPathLayout(name: string)
    requires name == [] || name[0] != '/'
    ensures CsvPath(name) == "data/csv/" + name + ".csv"
  {
    JoinPlain(CsvDir, name + ".csv");
  }

  /** Rendered numbers hold neither `/` nor `.`. */
  lemma NumeralsArePlain(s: string)
    requires NumeralChars(s)
    ensures '/' !in s && '.' !in s
  {
  }

  lemma FilenameIsPlain(year: int, month: int, day: int, hour: int)
    ensures '/' !in RawFilename(year, month, day, hour)
    ensures '.' !in RawFilename(year, month, day, hour)
  {
    var y, m, d, h := IntStr(year), Pad2(month), Pad2(day), Pad2(hour);
    Pad2Shape(month); Pad2Shape(day); Pad2Shape(hour);
    NumeralsArePlain(y);
    NumeralsArePlain(m);
    NumeralsArePlain(d);
    NumeralsArePlain(h);
    DumpNameIsPlain(y, m, d, h);
  }

  lemma DumpNameIsPlain(y: string, m: string, d: string, h: string)
    requires '/' !in y && '/' !in m && '/' !in d && '/' !in h
    requires '.' !in y && '.' !in m && '.' !in d && '.' !in h
    ensures '/' !in DumpName(y, m, d, h) && '.' !in DumpName(y, m, d, h)
  {
  }

  /** The stem of `<dir>/<name>.<ext>` is `name` when `name` holds no `/` and no `.`. */
  lemma StemOf(dir: string, name: string, ext: string)
    requires dir != [] && dir[|dir| - 1] == '/'
    requires '/' !in name && '.' !in name && ext != [] && ext[0] == '.' && '/' !in ext
    ensures Stem(dir + name + ext) == name
  {
    var init := dir[..|dir| - 1];
    var file := name + ext;
    assert dir + name + ext == init + ['/'] + file;
    LastSegmentOf(init, '/', file);
    assert file == name + ['.'] + ext[1..];
    FirstSegmentOf(name, '.', ext[1..]);
  }

  /** The stem read back from a raw path is the dump's file name. */
  lemma StemOfRawPath(year: int, month: int, day: int, hour: int)
    ensures Stem(RawPath(year, month, day, hour)) == RawFilename(year, month, day, hour)
  {
    FilenameIsPlain(year, month, day, hour);
    RawPathLayout(year, month, day, hour);
    StemOf("data/raw/", RawFilename(year, month, day, hour), ".gz");
  }

  /** A stem holds no `/`, so its CSV path is `data/csv/<stem>.csv`. */
  lemma CsvPathOfStem(path: string)
    ensures CsvPath(Stem(path)) == "data/csv/" + Stem(path) + ".csv"
  {
    var stem := Stem(path);
    LastSegmentShape(path, '/');
    FirstSegmentShape(LastSegment(path, '/'), '.');
    if stem != [] {
      assert stem[0] in LastSegment(path, '/');
    }
    CsvPathLayout(stem);
  }

  /** A four-digit year renders in exactly four characters. */
  lemma YearWidth(year: int)
    requires 1000 <= year <= 9999
    ensures |IntStr(year)| == 4 && AllDigits(IntStr(year)) && ParseNat(IntStr(year)) == year
  {
    NatStrLength(year, 3);
  }

  /** `strptime(raw_filename, "pageviews-%Y%m%d-%H%M%S")` recovers the date and the hour, at minute and second 0. */
  lemma ParseRawFilename(year: int, month: int, day: int, hour: int)
    requires 1000 <= year && ValidDate(Date(year, month, day)) && 0 <= hour < 24
    ensures Strptime(RawFilename(year, month, day, hour), StampPattern)
      == Some(DateTime(year, month, day, hour, 0, 0))
  {
    var y, m, d, h := IntStr(year), Pad2(month), Pad2(day), Pad2(hour);
    Pad2Shape(month); Pad2Shape(day); Pad2Shape(hour);
    YearWidth(year);
    ScanDumpName(y, m, d, h);
    ScanAccepted(RawFilename(year, month, day, hour), StampPattern, DateTime(year, month, day, hour, 0, 0));
  }

  /** A scan that fills in a valid date and time is what `strptime` returns. */
  lemma ScanAccepted(s: string, fmt: seq<Directive>, t: DateTime)
    requires Scan(s, fmt, Epoch) == Some(t) && ValidDateTime(t)
    ensures Strptime(s, fmt) == Some(t)
  {
  }

  /** The stamp pattern reads the four fields of a dump name and zero minutes and seconds. */
  lemma ScanDumpName(y: string, m: string, d: string, h: string)
    requires |y| == 4 && |m| == 2 && |d| == 2 && |h| == 2
    requires AllDigits(y) && AllDigits(m) && AllDigits(d) && AllDigits(h)
    ensures Scan(DumpName(y, m, d, h), StampPattern, Epoch)
      == Some(DateTime(ParseNat(y), ParseNat(m), ParseNat(d), ParseNat(h), 0, 0))
  {
    var ps := DumpPieces(y, m, d, h);
    PiecesFit(y, m, d, h);
    PiecesConcat(y, m, d, h);
    ScanPieces(ps, StampPattern, Epoch);
    PiecesFill(y, m, d, h);
  }

  /** The dump name cut along the stamp pattern's directives. */
  function DumpPieces(y: string, m: string, d: string, h: string): seq<string> {
    ["pageviews-", y, m, d, "-", h, "00", "00"]
  }

  lemma PiecesFit(y: string, m: string, d: string, h: string)
    requires |y| == 4 && |m| == 2 && |d| == 2 && |h| == 2
    requires AllDigits(y) && AllDigits(m) && AllDigits(d) && AllDigits(h)
    ensures AllFit(DumpPieces(y, m, d, h), StampPattern)
  {
    assert AllDigits("00");
  }

  lemma PiecesConcat(y: string, m: string, d: string, h: string)
    ensures Concat(DumpPieces(y, m, d, h)) == DumpName(y, m, d, h)
  {
    var ps := DumpPieces(y, m, d, h);
    calc {
      Concat(ps);
      "pageviews-" + Concat(ps[1..]);
      { assert ps[1..][1..] == ps[2..]; }
      "pageviews-" + (y + Concat(ps[2..]));
      { assert ps[2..][1..] == ps[3..]; }
      "pageviews-" + (y + (m + Concat(ps[3..])));
      { assert ps[3..][1..] == ps[4..]; }
      "pageviews-" + (y + (m + (d + Concat(ps[4..]))));
      { assert ps[4..][1..] == ps[5..]; }
      "pageviews-" + (y + (m + (d + ("-" + Concat(ps[5..])))));
      { assert ps[5..][1..] == ps[6..]; }
      "pageviews-" + (y + (m + (d + ("-" + (h + Concat(ps[6..]))))));
      { assert ps[6..][1..] == ps[7..]; }
      "pageviews-" + (y + (m + (d + ("-" + (h + ("00" + Concat(ps[7..])))))));
      { assert ps[7..][1..] == []; assert Concat(ps[7..]) == "00" + Concat([]); }
      "pageviews-" + (y + (m + (d + ("-" + (h + ("00" + "00"))))));
      { assert "00" + "00" == "0000"; }
      DumpName(y, m, d, h);
    }
  }

  lemma PiecesFill(y: string, m: string, d: string, h: string)
    requires |y| == 4 && |m| == 2 && |d| == 2 && |h| == 2
    requires AllDigits(y) && AllDigits(m) && AllDigits(d) && AllDigits(h)
    ensures AllFit(DumpPieces(y, m, d, h), StampPattern)
    ensures FillAll(Epoch, StampPattern, DumpPieces(y, m, d, h))
      == DateTime(ParseNat(y), ParseNat(m), ParseNat(d), ParseNat(h), 0, 0)
  {
    PiecesFit(y, m, d, h);
    var ps := DumpPieces(y, m, d, h);
    assert ParseNat("00") == 0;
    assert StampPattern[1..][1..] == StampPattern[2..] && ps[1..][1..] == ps[2..];
    assert StampPattern[2..][1..] == StampPattern[3..] && ps[2..][1..] == ps[3..];
    assert StampPattern[3..][1..] == StampPattern[4..] && ps[3..][1..] == ps[4..];
    assert StampPattern[4..][1..] == StampPattern[5..] && ps[4..][1..] == ps[5..];
    assert StampPattern[5..][1..] == StampPattern[6..] && ps[5..][1..] == ps[6..];
    assert StampPattern[6..][1..] == StampPattern[7..] && ps[6..][1..] == ps[7..];
    assert StampPattern[7..][1..] == [] && ps[7..][1..] == [];
  }

  /** Distinct hours never share a cache file: the raw path determines year, month, day and hour. */
  lemma RawPathInjective(y1: int, m1: int, d1: int, h1: int, y2: int, m2: int, d2: int, h2: int)
    requires 0 <= m1 < 100 && 0 <= d1 < 100 && 0 <= h1 < 100
    requires 0 <= m2 < 100 && 0 <= d2 < 100 && 0 <= h2 < 100
    requires RawPath(y1, m1, d1, h1) == RawPath(y2, m2, d2, h2)
    ensures y1 == y2 && m1 == m2 && d1 == d2 && h1 == h2
  {
    var f1, f2 := RawFilename(y1, m1, d1, h1), RawFilename(y2, m2, d2, h2);
    RawPathLayout(y1, m1, d1, h1);
    RawPathLayout(y2, m2, d2, h2);
    Pad2Shape(m1); Pad2Shape(d1); Pad2Shape(h1); Pad2Shape(m2); Pad2Shape(d2); Pad2Shape(h2);
    Unwrap("data/raw/", f1, f2, ".gz");
    DumpNameInjective(IntStr(y1), Pad2(m1), Pad2(d1), Pad2(h1), IntStr(y2), Pad2(m2), Pad2(d2), Pad2(h2));
    IntStrInjective(y1, y2);
  }

  lemma Unwrap(a: string, x: string, y: string, b: string)
    requires a + x + b == a + y + b
    ensures x == y
  {
    assert x == (a + x + b)[|a|..|a| + |x|];
  }

  /** With two-character month, day and hour, a dump name determines all four fields. */
  lemma DumpNameInjective(y1: string, m1: string, d1: string, h1: string,
                          y2: string, m2: string, d2: string, h2: string)
    requires |m1| == 2 && |d1| == 2 && |h1| == 2 && |m2| == 2 && |d2| == 2 && |h2| == 2
    requires DumpName(y1, m1, d1, h1) == DumpName(y2, m2, d2, h2)
    ensures y1 == y2 && m1 == m2 && d1 == d2 && h1 == h2
  {
    DumpNameLayout(y1, m1, d1, h1);
    DumpNameLayout(y2, m2, d2, h2);
  }

  /** Where the pieces of a dump file name sit when the month, day and hour take two characters each. */
  lemma DumpNameLayout(y: string, m: string, d: string, h: string)
    requires |m| == 2 && |d| == 2 && |h| == 2
    ensures var f := DumpName(y, m, d, h);
      && |f| == 21 + |y|
      && f[10..10 + |y|] == y
      && f[10 + |y|..12 + |y|] == m
      && f[12 + |y|..14 + |y|] == d
      && f[15 + |y|..17 + |y|] == h
  {
    var f := DumpName(y, m, d, h);
    var n := |y|;
    assert f == "pageviews-" + (y + (m + (d + ("-" + (h + "0000")))));
    assert f[10..] == y + (m + (d + ("-" + (h + "0000"))));
    assert f[10..][..n] == y;
    assert f[10 + n..] == m + (d + ("-" + (h + "0000")));
    assert f[12 + n..] == d + ("-" + (h + "0000"));
    assert f[15 + n..] == h + "0000";
  }

  /** CSV files and raw dumps live in different directories, so a CSV write never hits a dump. */
  lemma CsvPathIsNotRawPath(name: string, year: int, month: int, day: int, hour: int)
    requires name == [] || name[0] != '/'
    ensures CsvPath(name) != RawPath(year, month, day, hour)
  {
    CsvPathLayout(name);
    RawPathLayout(year, month, day, hour);
    assert "data/csv/"[5] == 'c' && "data/raw/"[5] == 'r';
    DirsDiffer("data/csv/", name, ".csv", "data/raw/", RawFilename(year, month, day, hour), ".gz");
  }

  /** Paths whose directories differ at the sixth character differ. */
  lemma DirsDiffer(d1: string, x1: string, y1: string, d2: string, x2: string, y2: string)
    requires |d1| > 5 && |d2| > 5 && d1[5] != d2[5]
    ensures d1 + x1 + y1 != d2 + x2 + y2
  {
    assert (d1 + x1 + y1)[5] == d1[5] && (d2 + x2 + y2)[5] == d2[5];
  }

  /** The timestamp of a dump path is its date and hour, at minute and second 0. */
  lemma RawPathStamp(year: int, month: int, day: int, hour: int)
    requires 1000 <= year && ValidDate(Date(year, month, day)) && 0 <= hour < 24
    ensures StemStamp(RawPath(year, month, day, hour)) == Some(DateTime(year, month, day, hour, 0, 0))
  {
    StemOfRawPath(year, month, day, hour);
    ParseRawFilename(year, month, day, hour);
  }

  /** `range(24)` is the hours 0 to 23 in order. */
  lemma AllHoursInOrder()
    ensures |AllHours()| == 24 && forall h :: 0 <= h < 24 ==> AllHours()[h] == h
  {
  }

  /** Distinct names free of a leading `/` have distinct CSV paths. */
  lemma CsvPathInjective(a: string, b: string)
    requires (a == [] || a[0] != '/') && (b == [] || b[0] != '/') && CsvPath(a) == CsvPath(b)
    ensures a == b
  {
    CsvPathLayout(a);
    CsvPathLayout(b);
    Unwrap("data/csv/", a, b, ".csv");
  }

  /** The CSV file a dump of the same day is exported to determines its hour. */
  lemma ExportDeterminesHour(year: int, month: int, day: int, h1: int, h2: int)
    requires 0 <= month < 100 && 0 <= day < 100 && 0 <= h1 < 100 && 0 <= h2 < 100
    requires ExportPath(RawPath(year, month, day, h1)) == ExportPath(RawPath(year, month, day, h2))
    ensures h1 == h2
  {
    var f1, f2 := RawFilename(year, month, day, h1), RawFilename(year, month, day, h2);
    StemOfRawPath(year, month, day, h1);
    StemOfRawPath(year, month, day, h2);
    DumpNameStart(IntStr(year), Pad2(month), Pad2(day), Pad2(h1));
    DumpNameStart(IntStr(year), Pad2(month), Pad2(day), Pad2(h2));
    CsvPathInjective(f1, f2);
    RawPathInjective(year, month, day, h1, year, month, day, h2);
  }

  /** Exporting a dump never writes over a dump of the same day. */
  lemma ExportIsNotDump(year: int, month: int, day: int, h1: int, h2: int)
    ensures ExportPath(RawPath(year, month, day, h1)) != RawPath(year, month, day, h2)
  {
    StemOfRawPath(year, month, day, h1);
    DumpNameStart(IntStr(year), Pad2(month), Pad2(day), Pad2(h1));
    CsvPathIsNotRawPath(RawFilename(year, month, day, h1), year, month, day, h2);
  }

  /** The i-th CSV path is the export path of the i-th dump. */
  lemma {:induction false} CsvPathsIndex(raws: seq<string>)
    ensures |CsvPaths(raws)| == |raws|
    ensures forall i :: 0 <= i < |raws| ==> CsvPaths(raws)[i] == ExportPath(raws[i])
    decreases |raws|
  {
    if raws != [] {
      CsvPathsIndex(raws[1..]);
      forall i | 0 < i < |raws| ensures CsvPaths(raws)[i] == ExportPath(raws[i]) {
        assert raws[1..][i - 1] == raws[i];
      }
    }
  }

  /**
   * Dumps are separate as soon as no dump is exported to the CSV file of a
   * later one, nor to a later dump's own path.
   */
  lemma {:induction false} SeparateFromPairs(raws: seq<string>)
    requires forall i, j :: 0 <= i < j < |raws| ==> ExportPath(raws[i]) != ExportPath(raws[j])
    requires forall i, j :: 0 <= i < j < |raws| ==> ExportPath(raws[i]) != raws[j]
    ensures SeparateExports(raws)
    decreases |raws|
  {
    if raws != [] {
      var c0, rest := ExportPath(raws[0]), raws[1..];
      CsvPathsIndex(rest);
      forall k | 0 <= k < |rest| ensures CsvPaths(rest)[k] != c0 && rest[k] != c0 {
        assert rest[k] == raws[k + 1];
      }
      forall i, j | 0 <= i < j < |rest| ensures ExportPath(rest[i]) != ExportPath(rest[j]) && ExportPath(rest[i]) != rest[j] {
        assert rest[i] == raws[i + 1] && rest[j] == raws[j + 1];
      }
      SeparateFromPairs(rest);
    }
  }

  /** The dumps of distinct hours of one day are exported to distinct CSV files, none of them a dump. */
  lemma DaySeparation(year: int, month: int, day: int, hs: seq<int>)
    requires 0 <= month < 100 && 0 <= day < 100
    requires forall i :: 0 <= i < |hs| ==> 0 <= hs[i] < 100
    requires forall i, j :: 0 <= i < j < |hs| ==> hs[i] != hs[j]
    ensures SeparateExports(DayPaths(year, month, day, hs))
  {
    var raws := DayPaths(year, month, day, hs);
    forall i, j | 0 <= i < j < |raws|
      ensures ExportPath(raws[i]) != ExportPath(raws[j])
      ensures ExportPath(raws[i]) != raws[j]
    {
      if ExportPath(raws[i]) == ExportPath(raws[j]) {
        ExportDeterminesHour(year, month, day, hs[i], hs[j]);
      }
      ExportIsNotDump(year, month, day, hs[i], hs[j]);
    }
    SeparateFromPairs(raws);
  }
}
