/**
 * The slice of Python's `datetime` the pipeline relies on: proleptic Gregorian
 * dates in years 1..9999, stepping a date back by whole days (`- timedelta(days=k)`),
 * `datetime.strptime` for patterns made of literal text and the numeric
 * directives `%Y %m %d %H %M %S`, and `str()` of a datetime.
 */
module Calendar {
  import opened Wrappers
  import opened Decimal

  datatype Date = Date(year: int, month: int, day: int)

  datatype DateTime = DateTime(year: int, month: int, day: int, hour: int, minute: int, second: int)
  {
    function DatePart(): Date {
      Date(year, month, day)
    }
  }

  predicate IsLeapYear(y: int) {
    y % 4 == 0 && (y % 100 != 0 || y % 400 == 0)
  }

  function DaysInMonth(y: int, m: int): int
    requires 1 <= m <= 12
  {
    if m == 2 then (if IsLeapYear(y) then 29 else 28)
    else if m == 4 || m == 6 || m == 9 || m == 11 then 30
    else 31
  }

  /** A date that `datetime.date` accepts (MINYEAR 1, MAXYEAR 9999). */
  predicate ValidDate(d: Date) {
    1 <= d.year <= 9999 && 1 <= d.month <= 12 && 1 <= d.day <= DaysInMonth(d.year, d.month)
  }

  /** A datetime that the `datetime` constructor accepts. */
  predicate ValidDateTime(t: DateTime) {
    ValidDate(t.DatePart()) && 0 <= t.hour < 24 && 0 <= t.minute < 60 && 0 <= t.second < 60
  }

  // ----- Day arithmetic -----

  /** The following day; `None` past 9999-12-31, where Python raises OverflowError. */
  function NextDay(d: Date): (r: Option<Date>)
    requires ValidDate(d)
    ensures r.None? <==> d == Date(9999, 12, 31)
    ensures r.Some? ==> ValidDate(r.value) && Ordinal(r.value) == Ordinal(d) + 1
  {
    if d.day < DaysInMonth(d.year, d.month) then Some(Date(d.year, d.month, d.day + 1))
    else if d.month < 12 then
      DaysBeforeMonthStep(d.year, d.month + 1);
      Some(Date(d.year, d.month + 1, 1))
    else if d.year < 9999 then
      YearLength(d.year);
      Some(Date(d.year + 1, 1, 1))
    else None
  }

  /** The preceding day; `None` before 0001-01-01, where Python raises OverflowError. */
  function PrevDay(d: Date): (r: Option<Date>)
    requires ValidDate(d)
    ensures r.None? <==> d == Date(1, 1, 1)
    ensures r.Some? ==> ValidDate(r.value) && Ordinal(r.value) == Ordinal(d) - 1
  {
    if d.day > 1 then Some(Date(d.year, d.month, d.day - 1))
    else if d.month > 1 then
      DaysBeforeMonthStep(d.year, d.month);
      Some(Date(d.year, d.month - 1, DaysInMonth(d.year, d.month - 1)))
    else if d.year > 1 then
      YearLength(d.year - 1);
      Some(Date(d.year - 1, 12, 31))
    else None
  }

  /** `d - timedelta(days=k)` on the date part; `None` when Python raises OverflowError. */
  function SubtractDays(d: Date, k: nat): (r: Option<Date>)
    requires ValidDate(d)
    ensures r.Some? ==> ValidDate(r.value)
    decreases k
  {
    if k == 0 then Some(d)
    else if d == Date(1, 1, 1) then None
    else SubtractDays(PrevDay(d).value, k - 1)
  }

  /** `d + timedelta(days=k)` on the date part; `None` past 9999-12-31. */
  function AddDays(d: Date, k: nat): (r: Option<Date>)
    requires ValidDate(d)
    ensures r.Some? ==> ValidDate(r.value)
    decreases k
  {
    if k == 0 then Some(d)
    else if d == Date(9999, 12, 31) then None
    else AddDays(NextDay(d).value, k - 1)
  }

  /** Stepping back `k` days lands exactly `k` day numbers earlier. */
  lemma {:induction false} SubtractDaysOrdinal(d: Date, k: nat)
    requires ValidDate(d) && SubtractDays(d, k).Some?
    ensures Ordinal(SubtractDays(d, k).value) == Ordinal(d) - k
    decreases k
  {
    if k > 0 {
      var p := PrevDay(d).value;
      assert SubtractDays(d, k) == SubtractDays(p, k - 1);
      SubtractDaysOrdinal(p, k - 1);
    }
  }

  /** Stepping back `k` days fails exactly when fewer than `k` days precede `d`. */
  lemma {:induction false} SubtractDaysFails(d: Date, k: nat)
    requires ValidDate(d)
    ensures SubtractDays(d, k).None? <==> Ordinal(d) <= k
    decreases k
  {
    if k == 0 {
      OrdinalPositive(d);
    } else if d == Date(1, 1, 1) {
      FirstDay(k);
    } else {
      OrdinalPositive(d);
      var p := PrevDay(d).value;
      assert SubtractDays(d, k) == SubtractDays(p, k - 1);
      SubtractDaysFails(p, k - 1);
    }
  }

  lemma FirstDay(k: nat)
    requires k > 0
    ensures Ordinal(Date(1, 1, 1)) == 1
    ensures SubtractDays(Date(1, 1, 1), k) == None
  {
    FirstOrdinal();
    NothingBeforeFirstDay(k);
  }

  lemma FirstOrdinal()
    ensures Ordinal(Date(1, 1, 1)) == 1
  {
  }

  lemma NothingBeforeFirstDay(k: nat)
    requires k > 0
    ensures SubtractDays(Date(1, 1, 1), k) == None
  {
  }

  // ----- Independent reference: proleptic Gregorian day numbers (`date.toordinal()`) -----

  function YearDays(y: int): int {
    if IsLeapYear(y) then 366 else 365
  }

  /** Days in the years before year `y`. */
  function DaysBeforeYear(y: int): int
    requires y >= 1
  {
    if y <= 1 then 0 else DaysBeforeYear(y - 1) + YearDays(y - 1)
  }

  /** The count of days before year `y` agrees with Python's closed formula in `_days_before_year`. */
  lemma {:induction false} DaysBeforeYearClosedForm(y: int)
    requires y >= 1
    ensures DaysBeforeYear(y) == ClosedDaysBeforeYear(y)
  {
    if y > 1 {
      DaysBeforeYearClosedForm(y - 1);
      ClosedFormStep(y - 1);
    }
  }

  /** `_days_before_year(y)` as Python writes it. */
  function ClosedDaysBeforeYear(y: int): int {
    var x := y - 1;
    365 * x + x / 4 - x / 100 + x / 400
  }

  lemma ClosedFormStep(x: int)
    requires x >= 1
    ensures ClosedDaysBeforeYear(x + 1) == ClosedDaysBeforeYear(x) + YearDays(x)
  {
    QuotientStep(x, 4);
    QuotientStep(x, 100);
    QuotientStep(x, 400);
    LeapDivisors(x);
  }

  lemma LeapDivisors(x: int)
    ensures x % 100 == 0 ==> x % 4 == 0
    ensures x % 400 == 0 ==> x % 100 == 0
  {
  }

  /** The quotient by `k` grows by one exactly at the multiples of `k`. */
  lemma QuotientStep(x: int, k: int)
    requires x >= 1 && k >= 1
    ensures x / k - (x - 1) / k == if x % k == 0 then 1 else 0
  {
    var q, r := x / k, x % k;
    if r == 0 {
      DivisionUnique(x - 1, k, q - 1, k - 1);
    } else {
      DivisionUnique(x - 1, k, q, r - 1);
    }
  }

  /** Euclidean division has one quotient. */
  lemma DivisionUnique(x: int, k: int, q: int, r: int)
    requires k >= 1 && x == k * q + r && 0 <= r < k
    ensures x / k == q
  {
    var q', r' := x / k, x % k;
    assert x == k * q' + r' && 0 <= r' < k;
    var d := q - q';
    assert k * d == k * q - k * q';
    assert k * d == r' - r;
    if d >= 1 {
      ProductAtLeast(k, d);
    } else if d <= -1 {
      assert k * (-d) == -(k * d);
      ProductAtLeast(k, -d);
    }
  }

  lemma ProductAtLeast(k: int, d: int)
    requires k >= 1 && d >= 1
    ensures k * d >= k
  {
    assert k * d == k * (d - 1) + k;
    assert k * (d - 1) >= 0;
  }

  /** Days of a common year before the first of month `m` (Python's `_DAYS_BEFORE_MONTH`). */
  function CommonDaysBefore(m: int): int {
    if m <= 1 then 0 else if m == 2 then 31 else if m == 3 then 59 else if m == 4 then 90
    else if m == 5 then 120 else if m == 6 then 151 else if m == 7 then 181 else if m == 8 then 212
    else if m == 9 then 243 else if m == 10 then 273 else if m == 11 then 304 else 334
  }

  /** Days of year `y` before the first of month `m`. */
  function DaysBeforeMonth(y: int, m: int): int
    requires 1 <= m <= 12
  {
    CommonDaysBefore(m) + (if m > 2 && IsLeapYear(y) then 1 else 0)
  }

  /** The day number of `d`, 0001-01-01 being day 1. */
  function Ordinal(d: Date): int
    requires ValidDate(d)
  {
    DaysBeforeYear(d.year) + DaysBeforeMonth(d.year, d.month) + d.day
  }

  lemma DaysBeforeMonthStep(y: int, m: int)
    requires 2 <= m <= 12
    ensures DaysBeforeMonth(y, m) == DaysBeforeMonth(y, m - 1) + DaysInMonth(y, m - 1)
  {
  }

  /** The months of year `y` add up to the length of the year, as the day count before each year has it. */
  lemma YearLength(y: int)
    requires y >= 1
    ensures DaysBeforeYear(y + 1) == DaysBeforeYear(y) + DaysBeforeMonth(y, 12) + 31
  {
  }

  lemma OrdinalPositive(d: Date)
    requires ValidDate(d)
    ensures Ordinal(d) >= 1
    ensures Ordinal(d) == 1 <==> d == Date(1, 1, 1)
  {
    DaysBeforeYearGrows(d.year);
  }

  lemma {:induction false} DaysBeforeYearGrows(y: int)
    requires y >= 1
    ensures DaysBeforeYear(y) >= 365 * (y - 1)
  {
    if y > 1 {
      DaysBeforeYearGrows(y - 1);
    }
  }

  /** Stepping back one day and forward one day are inverse. */
  lemma NextOfPrev(d: Date)
    requires ValidDate(d) && PrevDay(d).Some?
    ensures NextDay(PrevDay(d).value) == Some(d)
  {
  }

  lemma PrevOfNext(d: Date)
    requires ValidDate(d) && NextDay(d).Some?
    ensures PrevDay(NextDay(d).value) == Some(d)
  {
  }

  /** Going back `k` days and then forward `k` days returns to the start. */
  lemma {:induction false} AddAfterSubtract(d: Date, k: nat)
    requires ValidDate(d) && SubtractDays(d, k).Some?
    ensures AddDays(SubtractDays(d, k).value, k) == Some(d)
    decreases k
  {
    if k > 0 {
      var p := PrevDay(d).value;
      AddAfterSubtract(p, k - 1);
      var q := SubtractDays(p, k - 1).value;
      // AddDays(q, k) first steps to AddDays(q, k-1) = p, then to NextDay(p) = d.
      AddDaysLast(q, k - 1);
      NextOfPrev(d);
    }
  }

  lemma {:induction false} AddDaysLast(d: Date, k: nat)
    requires ValidDate(d) && AddDays(d, k).Some?
    ensures AddDays(d, k + 1) == NextDay(AddDays(d, k).value)
    decreases k
  {
    if k > 0 {
      AddDaysLast(NextDay(d).value, k - 1);
    }
  }

  // ----- strptime -----

  /** One element of a `strptime` pattern: literal text or a numeric directive. */
  datatype Directive = Literal(text: string) | Year | Month | Day | Hour | Minute | Second

  /** How many characters a directive consumes (fixed-width fields). */
  function Width(d: Directive): nat {
    match d
    case Literal(t) => |t|
    case Year => 4
    case _ => 2
  }

  function SetField(t: DateTime, d: Directive, v: int): DateTime {
    match d
    case Year => t.(year := v)
    case Month => t.(month := v)
    case Day => t.(day := v)
    case Hour => t.(hour := v)
    case Minute => t.(minute := v)
    case Second => t.(second := v)
    case Literal(_) => t
  }

  /** Match `s` against the pattern, filling fields into `acc`; the whole of `s` must be consumed. */
  function Scan(s: string, fmt: seq<Directive>, acc: DateTime): Option<DateTime>
    decreases |fmt|
  {
    if fmt == [] then (if s == [] then Some(acc) else None)
    else
      var w := Width(fmt[0]);
      if |s| < w then None
      else if fmt[0].Literal? then
        if s[..w] == fmt[0].text then Scan(s[w..], fmt[1..], acc) else None
      else if AllDigits(s[..w]) then Scan(s[w..], fmt[1..], SetField(acc, fmt[0], ParseNat(s[..w])))
      else None
  }

  /**
   * `datetime.strptime(s, fmt)`, read on the texts this system writes: every
   * field at its full width (four-digit years, two-digit months, days and
   * times), in ASCII digits, with literals in the pattern's own case; `None`
   * stands for Python's ValueError. Python also accepts shorter fields, other
   * Unicode digits and literals in another case, where this gives `None`.
   * Fields the pattern does not mention keep Python's defaults
   * (1900-01-01 00:00:00).
   */
  function Strptime(s: string, fmt: seq<Directive>): (r: Option<DateTime>)
    ensures r.Some? ==> ValidDateTime(r.value)
  {
    match Scan(s, fmt, DateTime(1900, 1, 1, 0, 0, 0))
    case None => None
    case Some(t) => if ValidDateTime(t) then Some(t) else None
  }

  /** `p` is text the directive `d` accepts: its literal text, or `Width(d)` digits. */
  predicate Fits(p: string, d: Directive) {
    |p| == Width(d) && (if d.Literal? then p == d.text else AllDigits(p))
  }

  /** The datetime after directive `d` has consumed `p`. */
  function Fill(acc: DateTime, d: Directive, p: string): DateTime
    requires Fits(p, d)
  {
    if d.Literal? then acc else SetField(acc, d, ParseNat(p))
  }

  function Concat(ps: seq<string>): string
    decreases |ps|
  {
    if ps == [] then [] else ps[0] + Concat(ps[1..])
  }

  predicate AllFit(ps: seq<string>, fmt: seq<Directive>) {
    |ps| == |fmt| && forall i :: 0 <= i < |fmt| ==> Fits(ps[i], fmt[i])
  }

  /** The fields a pattern reads from pieces that fit it, left to right. */
  function FillAll(acc: DateTime, fmt: seq<Directive>, ps: seq<string>): DateTime
    requires AllFit(ps, fmt)
    decreases |fmt|
  {
    if fmt == [] then acc
    else
      assert AllFit(ps[1..], fmt[1..]) by {
        assert forall i :: 1 <= i < |fmt| ==> ps[1..][i - 1] == ps[i] && fmt[1..][i - 1] == fmt[i];
      }
      FillAll(Fill(acc, fmt[0], ps[0]), fmt[1..], ps[1..])
  }

  /** One directive consumes the piece in front that fits it. */
  lemma ScanStep(p: string, rest: string, fmt: seq<Directive>, acc: DateTime)
    requires fmt != [] && Fits(p, fmt[0])
    ensures Scan(p + rest, fmt, acc) == Scan(rest, fmt[1..], Fill(acc, fmt[0], p))
  {
    var s := p + rest;
    assert s[..|p|] == p && s[|p|..] == rest;
  }

  /** A text made of pieces that fit the pattern one by one is accepted, with the fields they spell. */
  lemma {:induction false} ScanPieces(ps: seq<string>, fmt: seq<Directive>, acc: DateTime)
    requires AllFit(ps, fmt)
    ensures Scan(Concat(ps), fmt, acc) == Some(FillAll(acc, fmt, ps))
    decreases |fmt|
  {
    if fmt != [] {
      assert AllFit(ps[1..], fmt[1..]) by {
        assert forall i :: 1 <= i < |fmt| ==> ps[1..][i - 1] == ps[i] && fmt[1..][i - 1] == fmt[i];
      }
      assert Fits(ps[0], fmt[0]);
      ScanStep(ps[0], Concat(ps[1..]), fmt, acc);
      ScanPieces(ps[1..], fmt[1..], Fill(acc, fmt[0], ps[0]));
    }
  }

  // ----- str(datetime) -----

  /** `str(t)`: the ISO layout `YYYY-MM-DD HH:MM:SS`. */
  function FormatDateTime(t: DateTime): string
    requires ValidDateTime(t)
  {
    ThreeFields(ZeroPad(t.year, 4), '-', ZeroPad(t.month, 2), '-', ZeroPad(t.day, 2)) + " "
      + ThreeFields(ZeroPad(t.hour, 2), ':', ZeroPad(t.minute, 2), ':', ZeroPad(t.second, 2))
  }

  function ThreeFields(a: string, s1: char, b: string, s2: char, c: string): string {
    a + [s1] + b + [s2] + c
  }

  lemma ThreeFieldsLayout(a: string, s1: char, b: string, s2: char, c: string)
    requires |b| == 2 && |c| == 2
    ensures var r := ThreeFields(a, s1, b, s2, c);
      |r| == |a| + 6 && r[..|a|] == a && r[|a|] == s1 && r[|a| + 1..|a| + 3] == b
      && r[|a| + 3] == s2 && r[|a| + 4..] == c
  {
  }

  /** Every field of `str(t)` sits at a fixed offset and reads back as that field of `t`. */
  lemma FormatDateTimeLayout(t: DateTime)
    requires ValidDateTime(t)
    ensures var r := FormatDateTime(t);
      && |r| == 19
      && r[4] == '-' && r[7] == '-' && r[10] == ' ' && r[13] == ':' && r[16] == ':'
      && AllDigits(r[0..4]) && ParseNat(r[0..4]) == t.year
      && AllDigits(r[5..7]) && ParseNat(r[5..7]) == t.month
      && AllDigits(r[8..10]) && ParseNat(r[8..10]) == t.day
      && AllDigits(r[11..13]) && ParseNat(r[11..13]) == t.hour
      && AllDigits(r[14..16]) && ParseNat(r[14..16]) == t.minute
      && AllDigits(r[17..19]) && ParseNat(r[17..19]) == t.second
  {
    FieldWidths(t);
    ZeroPadShape(t.year, 4); ZeroPadShape(t.month, 2); ZeroPadShape(t.day, 2);
    ZeroPadShape(t.hour, 2); ZeroPadShape(t.minute, 2); ZeroPadShape(t.second, 2);
    StampLayout(ZeroPad(t.year, 4), ZeroPad(t.month, 2), ZeroPad(t.day, 2),
                ZeroPad(t.hour, 2), ZeroPad(t.minute, 2), ZeroPad(t.second, 2));
  }

  /** Where each of the six fields lands in `Y-M-D h:m:s` when the fields have widths 4, 2, 2, 2, 2, 2. */
  lemma StampLayout(y: string, mo: string, d: string, h: string, mi: string, s: string)
    requires |y| == 4 && |mo| == 2 && |d| == 2 && |h| == 2 && |mi| == 2 && |s| == 2
    ensures var r := ThreeFields(y, '-', mo, '-', d) + " " + ThreeFields(h, ':', mi, ':', s);
      && |r| == 19
      && r[4] == '-' && r[7] == '-' && r[10] == ' ' && r[13] == ':' && r[16] == ':'
      && r[0..4] == y && r[5..7] == mo && r[8..10] == d
      && r[11..13] == h && r[14..16] == mi && r[17..19] == s
  {
    var date, time := ThreeFields(y, '-', mo, '-', d), ThreeFields(h, ':', mi, ':', s);
    ThreeFieldsLayout(y, '-', mo, '-', d);
    ThreeFieldsLayout(h, ':', mi, ':', s);
    var r := date + " " + time;
    assert r[..10] == date;
    assert r[11..] == time;
    assert r[0..4] == date[0..4];
    assert r[5..7] == date[5..7];
    assert r[8..10] == date[8..10];
    assert r[11..13] == time[0..2];
    assert r[14..16] == time[3..5];
    assert r[17..19] == time[6..8];
  }

  lemma FieldWidths(t: DateTime)
    requires ValidDateTime(t)
    ensures |ZeroPad(t.year, 4)| == 4
    ensures |ZeroPad(t.month, 2)| == 2 && |ZeroPad(t.day, 2)| == 2
    ensures |ZeroPad(t.hour, 2)| == 2 && |ZeroPad(t.minute, 2)| == 2 && |ZeroPad(t.second, 2)| == 2
  {
    NatStrLength(t.year, if t.year < 10 then 0 else if t.year < 100 then 1 else if t.year < 1000 then 2 else 3);
    FieldWidth(t.year, 4);
    Pad2Width(t.month); Pad2Width(t.day); Pad2Width(t.hour); Pad2Width(t.minute); Pad2Width(t.second);
  }

  /** A numeral no wider than `w` is zero-filled to exactly `w` characters. */
  lemma FieldWidth(n: nat, w: nat)
    requires |NatStr(n)| <= w
    ensures |ZeroPad(n, w)| == w
  {
    ZeroPadShape(n, w);
  }

  /** Two-digit fields have numerals of at most two characters. */
  lemma Pad2Width(n: nat)
    requires n < 100
    ensures |NatStr(n)| <= 2 && |ZeroPad(n, 2)| == 2
  {
    if n >= 10 {
      NatStrLength(n, 1);
    }
    FieldWidth(n, 2);
  }

  /** Two datetimes that render alike are equal. */
  lemma FormatDateTimeInjective(a: DateTime, b: DateTime)
    requires ValidDateTime(a) && ValidDateTime(b)
    requires FormatDateTime(a) == FormatDateTime(b)
    ensures a == b
  {
    FormatDateTimeLayout(a);
    FormatDateTimeLayout(b);
  }
}
