/** The timestamp filter (filter_by_timestamp.py, repeated in filter_csv_interactive.py): a
    cutoff written in one of six formats, tried in order, and the rows of a table whose
    timestamp is strictly later than the cutoff, in their order. */
module FilterByTimestamp {
  import opened Wrappers
  import opened Text
  import opened Sequences
  import opened Calendar

  /** The six `strptime` formats, in the order they are tried. */
  datatype Format =
    | FracZone   // "%Y-%m-%d %H:%M:%S.%f%z"
    | Zone       // "%Y-%m-%d %H:%M:%S%z"
    | DashTime   // "%Y-%m-%d %H:%M:%S"
    | DashDate   // "%Y-%m-%d"
    | SlashTime  // "%Y/%m/%d %H:%M:%S"
    | SlashDate  // "%Y/%m/%d"

  const Formats: seq<Format> := [FracZone, Zone, DashTime, DashDate, SlashTime, SlashDate]

  /** The number a non-empty run of digits denotes. */
  function Number(s: string): (n: Option<nat>)
    ensures n.Some? <==> s != [] && AllDigits(s)
  {
    if s != [] && AllDigits(s) then Some(DigitsValue(s)) else None
  }

  /** `%Y<sep>%m<sep>%d` written with four, two and two digits, naming a real date. */
  function ParseDate(s: string, sep: char): (d: Option<(int, int, int)>)
    ensures d.Some? ==> ValidDate(d.value.0, d.value.1, d.value.2)
  {
    if |s| == 10 && s[4] == sep && s[7] == sep then
      match (Number(s[..4]), Number(s[5..7]), Number(s[8..]))
      case (Some(y), Some(m), Some(day)) =>
        if ValidDate(y, m, day) then Some((y, m, day)) else None
      case _ => None
    else None
  }

  /** `%H:%M:%S` written with two digits each, naming a time of day. */
  function ParseClock(s: string): (c: Option<(int, int, int)>)
    ensures c.Some? ==> 0 <= c.value.0 < 24 && 0 <= c.value.1 < 60 && 0 <= c.value.2 < 60
  {
    if |s| == 8 && s[2] == ':' && s[5] == ':' then
      match (Number(s[..2]), Number(s[3..5]), Number(s[6..]))
      case (Some(h), Some(m), Some(sec)) =>
        if h < 24 && m < 60 && sec < 60 then Some((h, m, sec)) else None
      case _ => None
    else None
  }

  /** `%z`: "Z", or a sign, two digits of hours and two of minutes, with or without a ':'
      between them; the offset in minutes. */
  function ParseZone(z: string): (off: Option<int>)
    ensures off.Some? ==> -1440 < off.value < 1440
  {
    if z == "Z" then Some(0)
    else if (|z| == 6 && z[3] == ':') || |z| == 5 then
      var hh := z[1..3];
      var mm := if |z| == 6 then z[4..] else z[3..];
      match (Number(hh), Number(mm))
      case (Some(h), Some(m)) =>
        var minutes: int := h * 60 + m;
        if (z[0] == '+' || z[0] == '-') && h < 24 && m < 60 then
          Some(if z[0] == '-' then -minutes else minutes)
        else None
      case _ => None
    else None
  }


  function Pow10(n: nat): nat { if n == 0 then 1 else 10 * Pow10(n - 1) }

  /** `%f`: one to six digits, read as the leading digits of the microseconds. */
  function FractionMicros(f: string): (us: int)
    requires 1 <= |f| <= 6 && AllDigits(f)
    ensures 0 <= us < 1000000
  {
    FractionBound(f);
    DigitsValue(f) * Pow10(6 - |f|)
  }

  lemma {:induction false} DigitsBound(s: string)
    requires AllDigits(s)
    ensures DigitsValue(s) < Pow10(|s|)
  {
    if s != [] {
      DigitsBound(s[..|s| - 1]);
    }
  }

  lemma FractionBound(f: string)
    requires 1 <= |f| <= 6 && AllDigits(f)
    ensures DigitsValue(f) * Pow10(6 - |f|) < 1000000
  {
    DigitsBound(f);
    var k := 6 - |f|;
    assert Pow10(|f|) * Pow10(k) == 1000000 by {
      assert Pow10(1) == 10;
      assert Pow10(2) == 100;
      assert Pow10(3) == 1000;
      assert Pow10(4) == 10000;
      assert Pow10(5) == 100000;
      assert Pow10(6) == 1000000;
    }
    assert DigitsValue(f) * Pow10(k) < Pow10(|f|) * Pow10(k) by {
      assert DigitsValue(f) + 1 <= Pow10(|f|);
      assert (DigitsValue(f) + 1) * Pow10(k) <= Pow10(|f|) * Pow10(k);
    }
  }

  /** A date and a time of day read from `s` (19 characters, date first, one space between). */
  function DateAndClock(s: string, sep: char, micro: int, offset: Option<int>): (t: Option<DateTime>)
    requires 0 <= micro < 1000000
    requires offset.Some? ==> -1440 < offset.value < 1440
    ensures t.Some? ==> Valid(t.value) && t.value.offset == offset && t.value.micro == micro
  {
    if |s| == 19 && s[10] == ' ' then
      match (ParseDate(s[..10], sep), ParseClock(s[11..]))
      case (Some((y, m, d)), Some((h, mi, sec))) => Some(DateTime(y, m, d, h, mi, sec, micro, offset))
      case _ => None
    else None
  }

  /** `datetime.strptime(s, fmt)` for zero-padded fields: the value it produces, or None where
      it raises `ValueError`. A `%z` makes the value aware; the other formats give naive
      values. */
  function Strptime(s: string, fmt: Format): (t: Option<DateTime>)
    ensures t.Some? ==> Valid(t.value)
    ensures t.Some? ==> (t.value.offset.Some? <==> fmt == FracZone || fmt == Zone)
  {
    match fmt
    case DashDate =>
      if |s| == 10 then
        match ParseDate(s, '-')
        case Some((y, m, d)) => Some(DateTime(y, m, d, 0, 0, 0, 0, None))
        case None => None
      else None
    case SlashDate =>
      if |s| == 10 then
        match ParseDate(s, '/')
        case Some((y, m, d)) => Some(DateTime(y, m, d, 0, 0, 0, 0, None))
        case None => None
      else None
    case DashTime => DateAndClock(s, '-', 0, None)
    case SlashTime => DateAndClock(s, '/', 0, None)
    case Zone =>
      if |s| > 19 then
        match ParseZone(s[19..])
        case Some(off) => DateAndClock(s[..19], '-', 0, Some(off))
        case None => None
      else None
    case FracZone =>
      if |s| > 20 && s[19] == '.' then
        var frac := LeadingDigits(s[20..]);
        if 1 <= |frac| <= 6 then
          match ParseZone(s[20 + |frac|..])
          case Some(off) => DateAndClock(s[..19], '-', FractionMicros(frac), Some(off))
          case None => None
        else None
      else None
  }

  datatype ParseError = Unparseable(text: string)

  /** `parse_timestamp`: the value of the first format that accepts `s`; when none does, the
      error naming `s`. */
  function ParseTimestamp(s: string): (r: Result<DateTime, ParseError>)
    ensures r.Success? ==> Valid(r.value)
    ensures r.Failure? ==> r.error == Unparseable(s)
  {
    match FirstSome(Formats, (f: Format) => Strptime(s, f))
    case Some((_, t)) => Success(t)
    case None => Failure(Unparseable(s))
  }

  /** The parse succeeds exactly when some format accepts the text, and then it is the value
      of the first such format in the list. */
  lemma ParseTimestampFirstMatch(s: string)
    ensures ParseTimestamp(s).Success? <==> exists k :: 0 <= k < |Formats| && Strptime(s, Formats[k]).Some?
    ensures ParseTimestamp(s).Success? ==>
              exists k :: 0 <= k < |Formats| && Strptime(s, Formats[k]) == Some(ParseTimestamp(s).value)
                          && forall j :: 0 <= j < k ==> Strptime(s, Formats[j]).None?
  {
    var r := FirstSome(Formats, (f: Format) => Strptime(s, f));
    if r.Some? {
      var k := r.value.0;
      assert Strptime(s, Formats[k]) == Some(ParseTimestamp(s).value);
    }
  }

  function DigitOf(c: char): int { c as int - '0' as int }

  lemma TwoDigits(s: string)
    requires |s| == 2 && AllDigits(s)
    ensures DigitsValue(s) == DigitOf(s[0]) * 10 + DigitOf(s[1])
  {
    var first := s[..1];
    assert first[..0] == [];
    assert DigitsValue(first) == DigitOf(s[0]);
  }

  lemma FourDigits(s: string)
    requires |s| == 4 && AllDigits(s)
    ensures DigitsValue(s) == DigitOf(s[0]) * 1000 + DigitOf(s[1]) * 100 + DigitOf(s[2]) * 10 + DigitOf(s[3])
  {
    assert s[..3][..2] == s[..2];
    TwoDigits(s[..2]);
  }

  lemma ReadDate()
    ensures ParseDate("2025-08-18", '-') == Some((2025, 8, 18))
  {
    var s := "2025-08-18";
    assert s[..4] == "2025" && s[5..7] == "08" && s[8..] == "18";
    FourDigits("2025");
    TwoDigits("08");
    TwoDigits("18");
  }

  lemma ReadClock()
    ensures ParseClock("02:03:32") == Some((2, 3, 32))
  {
    var s := "02:03:32";
    assert s[..2] == "02" && s[3..5] == "03" && s[6..] == "32";
    TwoDigits("02");
    TwoDigits("03");
    TwoDigits("32");
  }

  /** When format `k` is the first to accept `s`, its value is the parse. */
  lemma FirstFormatWins(s: string, k: nat, t: DateTime)
    requires k < |Formats| && Strptime(s, Formats[k]) == Some(t)
    requires forall j :: 0 <= j < k ==> Strptime(s, Formats[j]).None?
    ensures ParseTimestamp(s) == Success(t)
  {
    ParseTimestampFirstMatch(s);
  }

  /** A bare date is read by the fourth format, as midnight, naive. */
  lemma ParseDateOnly()
    ensures ParseTimestamp("2025-08-18") == Success(DateTime(2025, 8, 18, 0, 0, 0, 0, None))
  {
    var s := "2025-08-18";
    ReadDate();
    assert Strptime(s, DashDate) == Some(DateTime(2025, 8, 18, 0, 0, 0, 0, None));
    FirstFormatWins(s, 3, DateTime(2025, 8, 18, 0, 0, 0, 0, None));
  }


  lemma ReadFractionValue()
    ensures FractionMicros("457000") == 457000
  {
    assert DigitsValue("4") == 4 by { assert "4"[..0] == []; }
    assert DigitsValue("45") == 45 by { assert "45"[..1] == "4"; }
    assert DigitsValue("457") == 457 by { assert "457"[..2] == "45"; }
    assert DigitsValue("4570") == 4570 by { assert "4570"[..3] == "457"; }
    assert DigitsValue("45700") == 45700 by { assert "45700"[..4] == "4570"; }
    assert DigitsValue("457000") == 457000 by { assert "457000"[..5] == "45700"; }
  }

  lemma ReadZone()
    ensures ParseZone("+00:00") == Some(0)
  {
    var z := "+00:00";
    assert z[1..3] == "00" && z[4..] == "00";
    TwoDigits("00");
  }

  lemma ReadHead()
    ensures DateAndClock("2025-08-18 02:03:32", '-', 457000, Some(0))
         == Some(DateTime(2025, 8, 18, 2, 3, 32, 457000, Some(0)))
  {
    var h := "2025-08-18 02:03:32";
    assert h[..10] == "2025-08-18" && h[11..] == "02:03:32";
    ReadDate();
    ReadClock();
  }

  /** The first format reads a 19-character date and time, a dot, one to six digits of
      fraction and an offset. */
  lemma {:induction false} FracZoneShape(h: string, d: string, z: string)
    requires |h| == 19 && 1 <= |d| <= 6 && AllDigits(d) && z != [] && !IsDigit(z[0])
    requires ParseZone(z).Some?
    ensures Strptime(h + "." + d + z, FracZone) == DateAndClock(h, '-', FractionMicros(d), ParseZone(z))
  {
    var s := h + "." + d + z;
    assert s[..19] == h && s[19] == '.' && s[20..] == d + z;
    LeadingDigitsOf(d, z);
    assert s[20 + |d|..] == z;
  }

  /** A stamp as pandas' `to_csv` writes it once the pandas deduplication has converted the
      column (a space, a fraction and an offset) is read by the first format, as an aware
      value: a 19-character date and time, a dot, one to six digits of fraction and an offset
      parse to that date and time with the fraction as microseconds and the offset's minutes,
      whatever the later formats would say. The page's own `toISOString` text, with its 'T'
      between date and time, matches none of the formats. */
  lemma {:induction false} ParseFractionAndZone(h: string, d: string, z: string)
    requires |h| == 19 && 1 <= |d| <= 6 && AllDigits(d) && z != [] && !IsDigit(z[0])
    requires ParseZone(z).Some?
    requires DateAndClock(h, '-', FractionMicros(d), ParseZone(z)).Some?
    ensures var r := ParseTimestamp(h + "." + d + z);
      && r == Success(DateAndClock(h, '-', FractionMicros(d), ParseZone(z)).value)
      && r.value.micro == FractionMicros(d) && r.value.offset == ParseZone(z)
  {
    FracZoneShape(h, d, z);
    FirstFormatWins(h + "." + d + z, 0, DateAndClock(h, '-', FractionMicros(d), ParseZone(z)).value);
  }

  /** The parts of "2025-08-18 02:03:32.457000+00:00" meet the conditions above and denote
      2025-08-18 02:03:32.457 UTC. */
  lemma ToolStampParts()
    ensures var d, z := "457000", "+00:00";
      && AllDigits(d) && !IsDigit(z[0]) && ParseZone(z) == Some(0) && FractionMicros(d) == 457000
      && DateAndClock("2025-08-18 02:03:32", '-', FractionMicros(d), ParseZone(z))
         == Some(DateTime(2025, 8, 18, 2, 3, 32, 457000, Some(0)))
  {
    ReadZone();
    ReadFractionValue();
    ReadHead();
  }

  /** A fraction without an offset matches none of the formats: only the first one has `%f`,
      and it also demands `%z`. */
  lemma FractionWithoutZone()
    ensures ParseTimestamp("2025-08-18 02:03:32.457") == Failure(Unparseable("2025-08-18 02:03:32.457"))
  {
    var s := "2025-08-18 02:03:32.457";
    assert LeadingDigits(s[20..]) == "457";
    assert ParseZone(s[23..]).None?;
    assert ParseZone(s[19..]).None?;
  }

  lemma NotADate()
    ensures ParseTimestamp("not-a-date") == Failure(Unparseable("not-a-date"))
  {
    var s := "not-a-date";
    assert !IsDigit(s[0]);
  }

  // ---- filter_csv_by_timestamp

  /** A row of the table: its cells, and the instant its timestamp cell denotes once the
      column is converted. */
  datatype Stamped = Stamped(cells: seq<string>, ts: int)

  datatype Table = Table(columns: seq<string>, rows: seq<Stamped>)

  datatype FilterError =
    | MissingColumn(column: string, available: seq<string>)
    | BadCutoff(cause: ParseError)
    | Incomparable   // a naive column compared with an aware cutoff, or the other way round

  function NewerThan(cut: int): Stamped -> bool {
    (r: Stamped) => r.ts > cut
  }

  function AtOrBefore(cut: int): Stamped -> bool {
    (r: Stamped) => r.ts <= cut
  }

  /** `filter_csv_by_timestamp`: the column check, then the cutoff, then the mask
      `ts > cutoff`. `columnAware` says whether the converted column holds aware values; the
      comparison of naive with aware values raises, and the function then fails. */
  function FilterCsvByTimestamp(table: Table, cutoffText: string, column: string, columnAware: bool)
    : (r: Result<seq<Stamped>, FilterError>)
    ensures column !in table.columns ==> r == Failure(MissingColumn(column, table.columns))
    ensures column in table.columns && ParseTimestamp(cutoffText).Failure? ==>
              r == Failure(BadCutoff(Unparseable(cutoffText)))
    ensures r.Success? <==> && column in table.columns
                            && ParseTimestamp(cutoffText).Success?
                            && (ParseTimestamp(cutoffText).value.offset.Some? <==> columnAware)
    ensures r.Success? ==>
              var cut := Instant(ParseTimestamp(cutoffText).value);
              && |r.value| <= |table.rows|
              && (forall i :: 0 <= i < |r.value| ==> r.value[i] in table.rows && r.value[i].ts > cut)
              && (forall i :: 0 <= i < |table.rows| && table.rows[i].ts > cut ==> table.rows[i] in r.value)
    ensures r.Success? ==> r.value == Filter(table.rows, NewerThan(Instant(ParseTimestamp(cutoffText).value)))
  {
    if column !in table.columns then Failure(MissingColumn(column, table.columns))
    else match ParseTimestamp(cutoffText)
      case Failure(e) => Failure(BadCutoff(e))
      case Success(cutoff) =>
        if cutoff.offset.Some? != columnAware then Failure(Incomparable)
        else Success(Filter(table.rows, NewerThan(Instant(cutoff))))
  }

  /** The mask keeps each row exactly as often as the table holds it when it is strictly later
      than the cutoff, and never otherwise; what it keeps and what it drops add up to the
      table; and it keeps the rows in their order: filtering a table cut in two is filtering
      each part. */
  lemma {:induction false} NewerRows(rows: seq<Stamped>, cut: int, k: nat)
    requires k <= |rows|
    ensures forall x :: multiset(Filter(rows, NewerThan(cut)))[x] == if x.ts > cut then multiset(rows)[x] else 0
    ensures |Filter(rows, NewerThan(cut))| + |Filter(rows, AtOrBefore(cut))| == |rows|
    ensures Filter(rows, NewerThan(cut)) == Filter(rows[..k], NewerThan(cut)) + Filter(rows[k..], NewerThan(cut))
  {
    forall x ensures multiset(Filter(rows, NewerThan(cut)))[x] == if x.ts > cut then multiset(rows)[x] else 0 {
      FilterCount(rows, NewerThan(cut), x);
    }
    assert forall x :: AtOrBefore(cut)(x) == !NewerThan(cut)(x);
    FilterPartition(rows, NewerThan(cut), AtOrBefore(cut));
    assert rows == rows[..k] + rows[k..];
    FilterAppend(rows[..k], rows[k..], NewerThan(cut));
  }

  /** `main`'s exit status: 1 when the input file is missing or the filter fails, 0 after a
      successful filter. */
  function ExitStatus(inputExists: bool, table: Table, cutoffText: string, column: string, columnAware: bool)
    : (status: int)
    ensures status == 0 || status == 1
    ensures status == 0 <==> inputExists && FilterCsvByTimestamp(table, cutoffText, column, columnAware).Success?
  {
    if !inputExists then 1
    else if FilterCsvByTimestamp(table, cutoffText, column, columnAware).Success? then 0
    else 1
  }
}
