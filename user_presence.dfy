/**
 * The client-side logic of the presence report page: the "time spent"
 * column, the rows and text of the CSV export, and the query parameters
 * built from the filters.
 */
module PresenceReport {
  import opened Js
  import opened Decimal
  import CsvReader

  // ---------------------------------------------------------------------
  // Time spent
  // ---------------------------------------------------------------------

  /**
   * What `Number(time_spent_seconds)` gives for a record: nothing reported
   * (null or undefined), a whole number of seconds, or NaN.
   */
  datatype Reported = Absent | Number(seconds: int) | NotANumber

  /**
   * An entry or exit time as the backend sends it: the text itself, and the
   * instant `new Date(text)` denotes in milliseconds (None for an invalid date).
   */
  datatype Stamp = Stamp(text: string, ms: Option<int>)

  /** The placeholder shown when no duration can be computed (an em dash). */
  const Dash: string := "\U{2014}"

  /** JavaScript's `a % b` for b > 0: the remainder takes the sign of a. */
  function JsRem(a: int, b: int): (r: int)
    requires b > 0
    ensures -b < r < b
    ensures a >= 0 ==> r == a % b
    ensures a < 0 ==> r <= 0 && (a - r) % b == 0
  {
    if a >= 0 then a % b
    else
      NegativeRem(a, b);
      -((-a) % b)
  }

  /** For negative a, the truncated remainder is the negated remainder of -a. */
  lemma NegativeRem(a: int, b: int)
    requires b > 0 && a < 0
    ensures -b < -((-a) % b) <= 0
    ensures (a - -((-a) % b)) % b == 0
  {
    var q, m := (-a) / b, (-a) % b;
    assert -a == q * b + m;
    assert a + m == (-q) * b;
    MultipleRem(-q, b);
  }

  /** A multiple of b leaves no remainder. */
  lemma MultipleRem(k: int, b: int)
    requires b > 0
    ensures (k * b) % b == 0
  {
    var q, m := (k * b) / b, (k * b) % b;
    assert k * b == q * b + m;
    assert (k - q) * b == k * b - q * b;
    ProductBelow(k - q, b, m);
  }

  /** The only multiple of b in [0, b) is zero. */
  lemma ProductBelow(c: int, b: int, m: int)
    requires b > 0 && c * b == m && 0 <= m < b
    ensures m == 0
  {
  }

  /** `Math.floor(s / 3600)` (Dafny's / with a positive divisor rounds down). */
  function Hours(s: int): int {
    s / 3600
  }

  /** `Math.floor((s % 3600) / 60)`. */
  function Minutes(s: int): int {
    JsRem(s, 3600) / 60
  }

  /** `Math.floor(s % 60)`. */
  function Seconds(s: int): int {
    JsRem(s, 60)
  }

  /** A whole number of seconds as `"[Hh ]Mm Ss"`: the hours part is written only when positive. */
  function FormatDuration(s: int): (r: string)
    ensures 'h' in r <==> Hours(s) > 0
    ensures |r| >= 5
  {
    (if Hours(s) > 0 then IntToString(Hours(s)) + "h " else "")
      + IntToString(Minutes(s)) + "m " + IntToString(Seconds(s)) + "s"
  }

  /** A non-negative count of seconds splits into hours, minutes below 60 and seconds below 60. */
  lemma DurationParts(s: int)
    requires s >= 0
    ensures Hours(s) >= 0 && 0 <= Minutes(s) < 60 && 0 <= Seconds(s) < 60
    ensures Hours(s) * 3600 + Minutes(s) * 60 + Seconds(s) == s
  {
    var h, r := s / 3600, s % 3600;
    assert s == h * 3600 + r;
    var m, q := r / 60, r % 60;
    assert r == m * 60 + q;
    assert s == (h * 60 + m) * 60 + q;
    assert s % 60 == q;
  }

  /** Without a positive hours part, the text starts with the minutes. */
  lemma DurationStartsWithMinutes(s: int)
    requires Hours(s) <= 0
    ensures
      var m := IntToString(Minutes(s));
      |m| < |FormatDuration(s)| && FormatDuration(s)[..|m|] == m
  {
  }

  /**
   * Reads a number followed by a unit suffix such as "m ": the number and the
   * text after the suffix.
   */
  function ReadUnit(t: string, unit: string): Option<(nat, string)> {
    match ReadNat(t)
    case None => None
    case Some((v, r)) =>
      if |unit| <= |r| && r[..|unit|] == unit then Some((v, r[|unit|..])) else None
  }

  function ReadMinutesSeconds(t: string, base: nat): Option<nat> {
    match ReadUnit(t, "m ")
    case None => None
    case Some((m, r)) =>
      match ReadUnit(r, "s")
      case None => None
      case Some((sec, rest)) =>
        if rest == [] && m < 60 && sec < 60 then Some(base + m * 60 + sec) else None
  }

  /** Reads a duration text `"[Hh ]Mm Ss"` back into a number of seconds. */
  function ReadDuration(t: string): Option<nat> {
    if 'h' in t then
      match ReadUnit(t, "h ")
      case None => None
      case Some((h, r)) => if h > 0 then ReadMinutesSeconds(r, h * 3600) else None
    else ReadMinutesSeconds(t, 0)
  }

  lemma ReadUnitOf(v: nat, unit: string, rest: string)
    requires unit != [] && !IsDigit(unit[0])
    ensures ReadUnit(NatToString(v) + unit + rest, unit) == Some((v, rest))
  {
    var u := unit + rest;
    assert NatToString(v) + unit + rest == NatToString(v) + u;
    ReadNatToString(v, u);
    assert u[..|unit|] == unit && u[|unit|..] == rest;
  }

  lemma ReadMinutesSecondsOf(t: string, r: string, m: nat, sec: nat, base: nat)
    requires m < 60 && sec < 60
    requires ReadUnit(t, "m ") == Some((m, r))
    requires ReadUnit(r, "s") == Some((sec, ""))
    ensures ReadMinutesSeconds(t, base) == Some(base + m * 60 + sec)
  {
  }

  lemma ReadMinutesUnit(m: nat, sec: nat)
    ensures ReadUnit(NatToString(m) + "m " + NatToString(sec) + "s", "m ") == Some((m, NatToString(sec) + "s"))
  {
    var secText := NatToString(sec) + "s";
    assert NatToString(m) + "m " + NatToString(sec) + "s" == NatToString(m) + "m " + secText;
    ReadUnitOf(m, "m ", secText);
  }

  lemma ReadSecondsUnit(sec: nat)
    ensures ReadUnit(NatToString(sec) + "s", "s") == Some((sec, ""))
  {
    ReadUnitOf(sec, "s", "");
    assert NatToString(sec) + "s" + "" == NatToString(sec) + "s";
  }

  /** The text `"Mm Ss"` of in-range minutes and seconds reads back as them. */
  lemma MinutesSecondsRoundTrip(m: nat, sec: nat, base: nat)
    requires m < 60 && sec < 60
    ensures ReadMinutesSeconds(NatToString(m) + "m " + NatToString(sec) + "s", base) == Some(base + m * 60 + sec)
  {
    ReadMinutesUnit(m, sec);
    ReadSecondsUnit(sec);
    ReadMinutesSecondsOf(NatToString(m) + "m " + NatToString(sec) + "s", NatToString(sec) + "s", m, sec, base);
  }

  /** A positive hours part is read first, then the minutes and seconds after it. */
  lemma ReadWithHours(h: nat, tail: string)
    requires h > 0
    ensures ReadDuration(NatToString(h) + "h " + tail) == ReadMinutesSeconds(tail, h * 3600)
  {
    ReadUnitOf(h, "h ", tail);
    assert (NatToString(h) + "h " + tail)[|NatToString(h)|] == 'h';
  }

  /** The `"Mm Ss"` part of a duration text. */
  function MinutesSecondsText(s: int): string {
    IntToString(Minutes(s)) + "m " + IntToString(Seconds(s)) + "s"
  }

  /** The minutes and seconds part of a non-negative count reads back, on top of its hours. */
  lemma MinutesSecondsTextReads(s: nat)
    ensures ReadMinutesSeconds(MinutesSecondsText(s), Hours(s) * 3600) == Some(s)
  {
    DurationParts(s);
    var h, m, sec: nat := Hours(s), Minutes(s), Seconds(s);
    MinutesSecondsRoundTrip(m, sec, h * 3600);
  }

  /** The duration text of a count of at least an hour is its hours, then its minutes and seconds. */
  lemma DurationTextWithHours(s: nat)
    requires Hours(s) > 0
    ensures FormatDuration(s) == NatToString(Hours(s)) + "h " + MinutesSecondsText(s)
  {
  }

  /** Without hours the duration text is the minutes-and-seconds text alone, with no `h`. */
  lemma DurationTextWithoutHours(s: nat)
    requires Hours(s) == 0
    ensures FormatDuration(s) == MinutesSecondsText(s) && 'h' !in MinutesSecondsText(s)
  {
  }

  /** A text without `h` is read as minutes and seconds only. */
  lemma ReadWithoutHours(t: string)
    requires 'h' !in t
    ensures ReadDuration(t) == ReadMinutesSeconds(t, 0)
  {
  }

  /** With hours, reading the duration text passes them on to the reading of the rest. */
  lemma ReadsPositiveHoursFirst(s: nat)
    requires Hours(s) > 0
    ensures ReadDuration(FormatDuration(s)) == ReadMinutesSeconds(MinutesSecondsText(s), Hours(s) * 3600)
  {
    DurationTextWithHours(s);
    ReadWithHours(Hours(s), MinutesSecondsText(s));
  }

  /** Without hours, the duration text is read as minutes and seconds only. */
  lemma ReadsZeroHoursFirst(s: nat)
    requires Hours(s) == 0
    ensures ReadDuration(FormatDuration(s)) == ReadMinutesSeconds(MinutesSecondsText(s), Hours(s) * 3600)
  {
    assert Hours(s) * 3600 == 0;
    DurationTextWithoutHours(s);
    ReadWithoutHours(MinutesSecondsText(s));
  }

  /** Reading a duration text passes its hours on to the reading of the rest. */
  lemma DurationReadsHoursFirst(s: nat)
    ensures ReadDuration(FormatDuration(s)) == ReadMinutesSeconds(MinutesSecondsText(s), Hours(s) * 3600)
  {
    if Hours(s) > 0 {
      ReadsPositiveHoursFirst(s);
    } else {
      assert Hours(s) == 0;
      ReadsZeroHoursFirst(s);
    }
  }

  /** The duration text of a non-negative count of seconds reads back as that count. */
  lemma DurationRoundTrip(s: nat)
    ensures ReadDuration(FormatDuration(s)) == Some(s)
  {
    DurationReadsHoursFirst(s);
    MinutesSecondsTextReads(s);
  }

  /** `!iso`: the stamp is null, undefined or the empty string. */
  predicate Missing(t: Option<Stamp>) {
    t.None? || t.value.text == ""
  }

  /** `computeTimeSpent(startIso, endIso, time_spent_seconds)`. */
  function ComputeTimeSpent(start: Option<Stamp>, end: Option<Stamp>, reported: Reported): (r: string)
    ensures r == Dash || |r| >= 5
    ensures reported.NotANumber? ==> r == Dash
  {
    match reported
    case Number(n) => FormatDuration(n)
    case NotANumber => Dash
    case Absent =>
      if Missing(start) || Missing(end) then Dash
      else if start.value.ms.None? || end.value.ms.None? then Dash
      else
        var diff := end.value.ms.value - start.value.ms.value;
        if diff < 0 then Dash else FormatDuration(diff / 1000)
  }

  /** No duration can be shown: NaN seconds, or no seconds and no usable non-negative interval. */
  predicate Unknown(start: Option<Stamp>, end: Option<Stamp>, reported: Reported) {
    || reported.NotANumber?
    || (reported.Absent? &&
        (Missing(start) || Missing(end) || start.value.ms.None? || end.value.ms.None? ||
         end.value.ms.value < start.value.ms.value))
  }

  /** The dash appears exactly when no duration is known. */
  lemma DashExactlyWhenUnknown(start: Option<Stamp>, end: Option<Stamp>, reported: Reported)
    ensures ComputeTimeSpent(start, end, reported) == Dash <==> Unknown(start, end, reported)
  {
    if !Unknown(start, end, reported) {
      var r := ComputeTimeSpent(start, end, reported);
      assert |r| >= 5;
    }
  }

  /**
   * Seconds reported by the backend take precedence over the timestamps,
   * negative ones included; a non-negative count is shown as a text that
   * reads back as exactly those seconds, whatever the stamps are.
   */
  lemma ReportedSecondsTakePrecedence(start: Option<Stamp>, end: Option<Stamp>, n: int)
    ensures ComputeTimeSpent(start, end, Number(n)) == FormatDuration(n)
    ensures n >= 0 ==> ReadDuration(ComputeTimeSpent(start, end, Number(n))) == Some(n)
  {
    ReportedShown(start, end, n);
    if n >= 0 {
      DurationRoundTrip(n);
    }
  }

  /** A reported count is formatted as it is, whatever the stamps are. */
  lemma ReportedShown(start: Option<Stamp>, end: Option<Stamp>, n: int)
    ensures ComputeTimeSpent(start, end, Number(n)) == FormatDuration(n)
  {
  }

  /**
   * Without reported seconds, two valid stamps with the exit not before the entry show
   * the whole seconds elapsed between them, rounded down.
   */
  lemma ElapsedFromStamps(start: Stamp, end: Stamp)
    requires start.text != "" && end.text != ""
    requires start.ms.Some? && end.ms.Some? && start.ms.value <= end.ms.value
    ensures
      var diff := end.ms.value - start.ms.value;
      var k := diff / 1000;
      && k * 1000 <= diff < k * 1000 + 1000
      && ReadDuration(ComputeTimeSpent(Some(start), Some(end), Absent)) == Some(k)
  {
    ElapsedText(start, end);
    DurationRoundTrip((end.ms.value - start.ms.value) / 1000);
  }

  /** Without reported seconds, two valid ordered stamps show the duration text of their difference. */
  lemma ElapsedText(start: Stamp, end: Stamp)
    requires start.text != "" && end.text != ""
    requires start.ms.Some? && end.ms.Some? && start.ms.value <= end.ms.value
    ensures ComputeTimeSpent(Some(start), Some(end), Absent) == FormatDuration((end.ms.value - start.ms.value) / 1000)
  {
  }

  // ---------------------------------------------------------------------
  // CSV export
  // ---------------------------------------------------------------------

  /** A presence record as the report endpoint returns it (only the fields the export reads). */
  datatype Record = Record(
    user_name: Option<string>, user: Option<string>, user_id: Option<string>,
    cam_number: Option<string>, cam: Option<string>,
    entry_time: Option<Stamp>, exit_time: Option<Stamp>,
    time_spent_seconds: Reported, time_spent: Reported)

  const Headers: seq<string> := ["user", "cam_number", "entry_time", "exit_time", "time_spent"]

  /** `r.time_spent_seconds ?? r.time_spent`. */
  function ReportedSeconds(r: Record): Reported {
    if r.time_spent_seconds.Absent? then r.time_spent else r.time_spent_seconds
  }

  /** `stamp ?? ""`: the text of a stamp, or the empty string. */
  function StampText(t: Option<Stamp>): string {
    if t.Some? then t.value.text else ""
  }

  /** The five cells of a record's CSV row. */
  function RowCells(r: Record): (cells: seq<string>)
    ensures |cells| == |Headers| == 5
    ensures cells[0] == (if r.user_name.Some? then r.user_name.value
                         else if r.user.Some? then r.user.value
                         else if r.user_id.Some? then r.user_id.value
                         else "")
    ensures cells[1] == (if r.cam_number.Some? then r.cam_number.value
                         else if r.cam.Some? then r.cam.value
                         else "")
    ensures cells[2] == if r.entry_time.Some? then r.entry_time.value.text else ""
    ensures cells[3] == if r.exit_time.Some? then r.exit_time.value.text else ""
    ensures cells[4] == ComputeTimeSpent(r.entry_time, r.exit_time, ReportedSeconds(r))
  {
    [ Coalesce(r.user_name, Coalesce(r.user, Coalesce(r.user_id, ""))),
      Coalesce(r.cam_number, Coalesce(r.cam, "")),
      StampText(r.entry_time),
      StampText(r.exit_time),
      ComputeTimeSpent(r.entry_time, r.exit_time, ReportedSeconds(r)) ]
  }

  /** `String(c).replace(/"/g, '""')`: every double quote doubled. */
  function Escape(c: string): (r: string)
    ensures |r| >= |c|
    ensures '"' !in c ==> r == c
    ensures '"' in c ==> |r| > |c|
  {
    if c == [] then []
    else (if c[0] == '"' then "\"\"" else [c[0]]) + Escape(c[1..])
  }

  /** A cell enclosed in double quotes with its own quotes doubled. */
  function QuoteCell(c: string): (q: string)
    ensures |q| >= |c| + 2 && q[0] == '"' && q[|q| - 1] == '"'
  {
    "\"" + Escape(c) + "\""
  }

  /** `r.map(quote)`. */
  function QuotedRow(cells: seq<string>): (r: seq<string>)
    ensures |r| == |cells|
    ensures forall i :: 0 <= i < |cells| ==> r[i] == QuoteCell(cells[i])
  {
    seq(|cells|, i requires 0 <= i < |cells| => QuoteCell(cells[i]))
  }

  /** `data.map(...)`: the cells of every record, in order. */
  function CsvRows(data: seq<Record>): (rows: seq<seq<string>>)
    ensures |rows| == |data|
    ensures forall i :: 0 <= i < |data| ==> |rows[i]| == 5
  {
    seq(|data|, i requires 0 <= i < |data| => RowCells(data[i]))
  }

  /** The unquoted header line followed by one line per row of enclosed cells. */
  function CsvLines(header: seq<string>, rows: seq<seq<string>>): (lines: seq<string>)
    ensures |lines| == |rows| + 1
    ensures lines[0] == Join(",", header)
    ensures forall i :: 0 <= i < |rows| ==> lines[i + 1] == Join(",", QuotedRow(rows[i]))
  {
    [Join(",", header)] + seq(|rows|, i requires 0 <= i < |rows| => Join(",", QuotedRow(rows[i])))
  }

  /** The text `downloadCSV` puts in the file; nothing is produced when there are no records. */
  function ExportCsv(data: seq<Record>): (r: Option<string>)
    ensures r.None? <==> |data| == 0
  {
    if |data| == 0 then None else Some(Join("\n", CsvLines(Headers, CsvRows(data))))
  }

  /** Un-quoting an enclosed cell recovers the original text. */
  lemma {:induction false} ReadEscaped(c: string, t: string)
    requires t == [] || t[0] != '"'
    ensures CsvReader.ReadQuoted(Escape(c) + "\"" + t) == Some((c, t))
  {
    if c == [] {
      assert Escape(c) + "\"" + t == "\"" + t;
      CsvReader.ReadQuotedClose(t);
    } else if c[0] == '"' {
      ReadEscaped(c[1..], t);
      ReadEscapedQuote(c, t);
    } else {
      ReadEscaped(c[1..], t);
      ReadEscapedChar(c, t);
    }
  }

  /** A leading quote of the cell, written doubled, is read back as one quote. */
  lemma ReadEscapedQuote(c: string, t: string)
    requires c != [] && c[0] == '"'
    requires CsvReader.ReadQuoted(Escape(c[1..]) + "\"" + t) == Some((c[1..], t))
    ensures CsvReader.ReadQuoted(Escape(c) + "\"" + t) == Some((c, t))
  {
    var rest := Escape(c[1..]) + "\"" + t;
    assert Escape(c) + "\"" + t == "\"\"" + rest;
    CsvReader.ReadQuotedPair(rest, c[1..], t);
    assert "\"" + c[1..] == c;
  }

  /** A leading character of the cell other than a quote is read back as itself. */
  lemma ReadEscapedChar(c: string, t: string)
    requires c != [] && c[0] != '"'
    requires CsvReader.ReadQuoted(Escape(c[1..]) + "\"" + t) == Some((c[1..], t))
    ensures CsvReader.ReadQuoted(Escape(c) + "\"" + t) == Some((c, t))
  {
    var rest := Escape(c[1..]) + "\"" + t;
    assert Escape(c) + "\"" + t == [c[0]] + rest;
    CsvReader.ReadQuotedChar(c[0], rest, c[1..], t);
    assert [c[0]] + c[1..] == c;
  }

  /** An enclosed cell reads back as the cell, whatever field end follows it. */
  lemma QuotedCellDenotes(c: string)
    ensures CsvReader.Denotes(QuoteCell(c), c)
  {
    forall t | CsvReader.AtFieldEnd(t)
      ensures CsvReader.ReadField(QuoteCell(c) + t) == Some((c, t))
    {
      QuotedCellReads(c, t);
    }
  }

  /** One field end after the enclosed cell. */
  lemma QuotedCellReads(c: string, t: string)
    requires CsvReader.AtFieldEnd(t)
    ensures CsvReader.ReadField(QuoteCell(c) + t) == Some((c, t))
  {
    ReadEscaped(c, t);
    assert (QuoteCell(c) + t)[1..] == Escape(c) + "\"" + t;
  }

  /** A header cell that reads back as itself: no comma, no line break, no leading quote. */
  ghost predicate PlainCell(c: string) {
    (forall i :: 0 <= i < |c| ==> c[i] != ',' && c[i] != '\n') && (c == [] || c[0] != '"')
  }

  /** The fields written on the lines: the bare header, then each row's enclosed cells. */
  function WrittenFields(header: seq<string>, rows: seq<seq<string>>): (fields: seq<seq<string>>)
    ensures |fields| == |rows| + 1 && fields[0] == header
    ensures forall i :: 0 <= i < |rows| ==> fields[i + 1] == QuotedRow(rows[i])
  {
    [header] + seq(|rows|, i requires 0 <= i < |rows| => QuotedRow(rows[i]))
  }

  /** Every plain header cell denotes itself. */
  lemma HeaderDenotes(header: seq<string>)
    requires forall j :: 0 <= j < |header| ==> PlainCell(header[j])
    ensures forall j :: 0 <= j < |header| ==> CsvReader.Denotes(header[j], header[j])
  {
    forall j | 0 <= j < |header| ensures CsvReader.Denotes(header[j], header[j]) {
      CsvReader.PlainDenotesItself(header[j]);
    }
  }

  /** Every enclosed cell of a row denotes the cell it encloses. */
  lemma RowDenotes(cells: seq<string>)
    ensures forall j :: 0 <= j < |cells| ==> CsvReader.Denotes(QuotedRow(cells)[j], cells[j])
  {
    forall j | 0 <= j < |cells| ensures CsvReader.Denotes(QuotedRow(cells)[j], cells[j]) {
      QuotedCellDenotes(cells[j]);
    }
  }

  /** Every written field denotes the cell at its place in the table. */
  lemma {:induction false} FieldsDenoteCells(header: seq<string>, rows: seq<seq<string>>)
    requires forall j :: 0 <= j < |header| ==> PlainCell(header[j])
    ensures forall i, j :: 0 <= i < |rows| + 1 && 0 <= j < |([header] + rows)[i]| ==>
      CsvReader.Denotes(WrittenFields(header, rows)[i][j], ([header] + rows)[i][j])
  {
    var table := [header] + rows;
    var fields := WrittenFields(header, rows);
    forall i | 0 <= i < |rows| + 1
      ensures forall j :: 0 <= j < |table[i]| ==> CsvReader.Denotes(fields[i][j], table[i][j])
    {
      if i == 0 {
        HeaderDenotes(header);
      } else {
        assert table[i] == rows[i - 1];
        assert fields[i] == QuotedRow(rows[i - 1]);
        RowDenotes(rows[i - 1]);
      }
    }
  }

  /**
   * The writer and the CSV reader agree: a plain non-empty header line
   * and rows of enclosed cells read back as the header and the rows.
   */
  lemma TextRoundTrip(header: seq<string>, rows: seq<seq<string>>)
    requires |header| > 0 && forall j :: 0 <= j < |header| ==> PlainCell(header[j])
    requires forall i :: 0 <= i < |rows| ==> |rows[i]| > 0
    ensures CsvReader.ReadRecords(Join("\n", CsvLines(header, rows))) == Some([header] + rows)
  {
    var table := [header] + rows;
    var fields := WrittenFields(header, rows);
    var lines := CsvLines(header, rows);
    FieldsDenoteCells(header, rows);
    assert forall i :: 0 <= i < |table| ==> |table[i]| == |fields[i]| > 0 by {
      forall i | 0 <= i < |table| ensures |table[i]| == |fields[i]| > 0 {
        if i > 0 {
          assert table[i] == rows[i - 1];
        }
      }
    }
    assert forall i :: 0 <= i < |lines| ==> lines[i] == Join(",", fields[i]);
    CsvReader.ReadJoinedTable(table, fields, lines);
  }

  /** The header cells contain no comma, line break or quote. */
  lemma HeadersArePlain()
    ensures forall j :: 0 <= j < |Headers| ==> PlainCell(Headers[j])
  {
  }

  /** The table of cells an export writes: the header row, then each record's cells in order. */
  function ExportedTable(data: seq<Record>): (table: seq<seq<string>>)
    ensures |table| == |data| + 1 && table[0] == Headers
    ensures forall i :: 0 <= i < |data| ==> table[i + 1] == RowCells(data[i])
  {
    var rows := CsvRows(data);
    assert forall i :: 0 <= i < |data| ==> rows[i] == RowCells(data[i]);
    [Headers] + rows
  }

  /**
   * Reading the exported text back as CSV gives the header row and
   * then exactly one row per record, each holding that record's five cells.
   */
  lemma ExportRoundTrip(data: seq<Record>)
    requires |data| > 0
    ensures CsvReader.ReadRecords(ExportCsv(data).value) == Some(ExportedTable(data))
  {
    HeadersArePlain();
    TextRoundTrip(Headers, CsvRows(data));
  }

  // ---------------------------------------------------------------------
  // Query parameters
  // ---------------------------------------------------------------------

  /** The four filters of the report page, as the inputs hold them. */
  datatype Filters = Filters(from: string, to: string, camNum: string, userId: string)

  /** The names of the parameters `buildQuery` sets: "from", "to", "cam" and "user". */
  datatype Key = From | To | Cam | User

  /** A name and a value of a query; the operations on queries work for names of any type. */
  type Param = (Key, string)

  /** The text of each parameter name. */
  function Name(k: Key): string {
    match k
    case From => "from"
    case To => "to"
    case Cam => "cam"
    case User => "user"
  }

  /** `params.get(k)`: the value of the first pair named k. */
  function Lookup<K(==, !new)>(ps: seq<(K, string)>, k: K): Option<string> {
    if ps == [] then None
    else if ps[0].0 == k then Some(ps[0].1)
    else Lookup(ps[1..], k)
  }

  /** How many pairs are named k. */
  function Occurrences<K(==, !new)>(ps: seq<(K, string)>, k: K): nat {
    if ps == [] then 0 else (if ps[0].0 == k then 1 else 0) + Occurrences(ps[1..], k)
  }

  /** The pairs not named k, in order. */
  function RemoveAll<K(==, !new)>(ps: seq<(K, string)>, k: K): (r: seq<(K, string)>)
    ensures Occurrences(r, k) == 0 && Lookup(r, k).None?
    ensures forall k' :: k' != k ==> Lookup(r, k') == Lookup(ps, k')
  {
    if ps == [] then []
    else if ps[0].0 == k then RemoveAll(ps[1..], k)
    else [ps[0]] + RemoveAll(ps[1..], k)
  }

  /**
   * `params.set(k, v)` (URL Standard, URLSearchParams): the first pair named k
   * gets value v and the other pairs named k go; without one, (k, v) is appended.
   */
  function SetParam<K(==, !new)>(ps: seq<(K, string)>, k: K, v: string): (r: seq<(K, string)>)
    ensures Lookup(r, k) == Some(v) && Occurrences(r, k) == 1
    ensures forall k' :: k' != k ==> Lookup(r, k') == Lookup(ps, k')
    ensures Occurrences(ps, k) == 0 ==> r == ps + [(k, v)]
  {
    if ps == [] then [(k, v)]
    else if ps[0].0 == k then [(k, v)] + RemoveAll(ps[1..], k)
    else
      assert Occurrences(ps, k) == Occurrences(ps[1..], k);
      var r := [ps[0]] + SetParam(ps[1..], k, v);
      assert Occurrences(ps, k) == 0 ==> r == ps + [(k, v)] by {
        if Occurrences(ps, k) == 0 {
          assert [ps[0]] + (ps[1..] + [(k, v)]) == ps + [(k, v)];
        }
      }
      r
  }

  /** Removing a key keeps every other pair, as often as it occurs, and only those. */
  lemma {:induction false} RemoveAllKeepsOthers<K(!new)>(ps: seq<(K, string)>, k: K)
    ensures |RemoveAll(ps, k)| + Occurrences(ps, k) == |ps|
    ensures forall p: (K, string) :: p.0 != k ==> multiset(RemoveAll(ps, k))[p] == multiset(ps)[p]
    ensures Occurrences(ps, k) == 0 ==> RemoveAll(ps, k) == ps
  {
    if ps != [] {
      RemoveAllKeepsOthers(ps[1..], k);
      assert ps == [ps[0]] + ps[1..];
    }
  }

  /** `set` leaves the pairs not named k where they were: same pairs, same order. */
  lemma {:induction false} SetKeepsOthers<K(!new)>(ps: seq<(K, string)>, k: K, v: string)
    ensures RemoveAll(SetParam(ps, k, v), k) == RemoveAll(ps, k)
  {
    if ps == [] {
    } else if ps[0].0 == k {
      var r := SetParam(ps, k, v);
      assert r[0].0 == k && r[1..] == RemoveAll(ps[1..], k);
      RemoveAllKeepsOthers(RemoveAll(ps[1..], k), k);
    } else {
      var r := SetParam(ps, k, v);
      assert r[0] == ps[0] && r[1..] == SetParam(ps[1..], k, v);
      SetKeepsOthers(ps[1..], k, v);
    }
  }

  /** The position of each filter's parameter in the query. */
  function KeyRank(k: Key): nat {
    match k
    case From => 0
    case To => 1
    case Cam => 2
    case User => 3
  }

  predicate InRankOrder(ps: seq<Param>) {
    forall i, j :: 0 <= i < j < |ps| ==> KeyRank(ps[i].0) < KeyRank(ps[j].0)
  }

  /** Every pair is named before position n of the query. */
  predicate RanksBelow(ps: seq<Param>, n: nat) {
    forall i :: 0 <= i < |ps| ==> KeyRank(ps[i].0) < n
  }

  lemma {:induction false} AbsentBelowRank(ps: seq<Param>, k: Key)
    requires RanksBelow(ps, KeyRank(k))
    ensures Occurrences(ps, k) == 0 && Lookup(ps, k).None?
  {
    if ps != [] {
      assert KeyRank(ps[0].0) < KeyRank(k);
      AbsentBelowRank(ps[1..], k);
    }
  }

  /** The pair for one filter: present only when the filter has a value. */
  function Pair(k: Key, v: Option<string>): seq<Param> {
    if v.Some? then [(k, v.value)] else []
  }

  /** Appending an optional pair keeps the order and adds its key and nothing else. */
  lemma {:induction false} LookupAfterPair(ps: seq<Param>, k: Key, v: Option<string>, k': Key)
    requires RanksBelow(ps, KeyRank(k))
    ensures Lookup(ps + Pair(k, v), k') == if k' == k then v else Lookup(ps, k')
  {
    AbsentBelowRank(ps, k);
    if ps == [] {
    } else {
      assert (ps + Pair(k, v))[1..] == ps[1..] + Pair(k, v);
      assert RanksBelow(ps[1..], KeyRank(k));
      LookupAfterPair(ps[1..], k, v, k');
    }
  }

  /** Appending the pair of a key that ranks after every present one keeps the query in order. */
  lemma PairAfter(ps: seq<Param>, k: Key, v: Option<string>)
    requires InRankOrder(ps) && RanksBelow(ps, KeyRank(k))
    ensures InRankOrder(ps + Pair(k, v)) && RanksBelow(ps + Pair(k, v), KeyRank(k) + 1)
  {
    var qs := ps + Pair(k, v);
    forall i | 0 <= i < |qs| ensures KeyRank(qs[i].0) < KeyRank(k) + 1 {
      if i < |ps| {
        assert qs[i] == ps[i];
      }
    }
    forall i, j | 0 <= i < j < |qs| ensures KeyRank(qs[i].0) < KeyRank(qs[j].0) {
      assert qs[i] == ps[i];
      if j < |ps| {
        assert qs[j] == ps[j];
      }
    }
  }

  /** A parameter whose key ranks after every present one is appended by `set`. */
  lemma AppendAfter(ps: seq<Param>, k: Key, v: string)
    requires RanksBelow(ps, KeyRank(k))
    ensures SetParam(ps, k, v) == ps + [(k, v)]
  {
    AbsentBelowRank(ps, k);
  }

  /** The steps of `buildQuery`: each `set` appends the pair of its filter. */
  lemma SetTo(a: Option<string>, v: string)
    ensures SetParam(Pair(From, a), To, v) == Pair(From, a) + [(To, v)]
  {
    AppendAfter(Pair(From, a), To, v);
  }

  lemma SetCam(a: Option<string>, b: Option<string>, v: string)
    ensures SetParam(Pair(From, a) + Pair(To, b), Cam, v) == Pair(From, a) + Pair(To, b) + [(Cam, v)]
  {
    PairAfter([], From, a);
    assert [] + Pair(From, a) == Pair(From, a);
    PairAfter(Pair(From, a), To, b);
    AppendAfter(Pair(From, a) + Pair(To, b), Cam, v);
  }

  lemma SetUser(a: Option<string>, b: Option<string>, c: Option<string>, v: string)
    ensures SetParam(Pair(From, a) + Pair(To, b) + Pair(Cam, c), User, v)
         == Pair(From, a) + Pair(To, b) + Pair(Cam, c) + [(User, v)]
  {
    PairAfter([], From, a);
    assert [] + Pair(From, a) == Pair(From, a);
    PairAfter(Pair(From, a), To, b);
    PairAfter(Pair(From, a) + Pair(To, b), Cam, c);
    AppendAfter(Pair(From, a) + Pair(To, b) + Pair(Cam, c), User, v);
  }

  /** One filter's step: the pair of a key ranking after the present ones keeps the order and sets that key only. */
  lemma PairStep(ps: seq<Param>, k: Key, v: Option<string>)
    requires InRankOrder(ps) && RanksBelow(ps, KeyRank(k))
    ensures InRankOrder(ps + Pair(k, v)) && RanksBelow(ps + Pair(k, v), KeyRank(k) + 1)
    ensures Lookup(ps + Pair(k, v), k) == v
    ensures forall k' :: k' != k ==> Lookup(ps + Pair(k, v), k') == Lookup(ps, k')
  {
    PairAfter(ps, k, v);
    LookupAfterPair(ps, k, v, k);
    forall k' | k' != k ensures Lookup(ps + Pair(k, v), k') == Lookup(ps, k') {
      LookupAfterPair(ps, k, v, k');
    }
  }

  /** The first two filters' parameters: from, then to. */
  lemma QueryPrefix2(a: Option<string>, b: Option<string>)
    ensures InRankOrder(Pair(From, a) + Pair(To, b)) && RanksBelow(Pair(From, a) + Pair(To, b), 2)
    ensures Lookup(Pair(From, a) + Pair(To, b), From) == a && Lookup(Pair(From, a) + Pair(To, b), To) == b
  {
    var p0: seq<Param> := [];
    assert p0 + Pair(From, a) == Pair(From, a);
    PairStep(p0, From, a);
    PairStep(Pair(From, a), To, b);
  }

  /** The first three filters' parameters: from, to, then cam. */
  lemma QueryPrefix3(a: Option<string>, b: Option<string>, c: Option<string>)
    ensures
      var ps := Pair(From, a) + Pair(To, b) + Pair(Cam, c);
      && InRankOrder(ps) && RanksBelow(ps, 3)
      && Lookup(ps, From) == a && Lookup(ps, To) == b && Lookup(ps, Cam) == c
  {
    QueryPrefix2(a, b);
    PairStep(Pair(From, a) + Pair(To, b), Cam, c);
  }

  /** The parameters of the four filters, in order: each key maps to its own filter's value. */
  lemma QueryShape(a: Option<string>, b: Option<string>, c: Option<string>, d: Option<string>)
    ensures
      var ps := Pair(From, a) + Pair(To, b) + Pair(Cam, c) + Pair(User, d);
      && Lookup(ps, From) == a && Lookup(ps, To) == b
      && Lookup(ps, Cam) == c && Lookup(ps, User) == d
      && InRankOrder(ps) && RanksBelow(ps, 4)
  {
    QueryPrefix3(a, b, c);
    PairStep(Pair(From, a) + Pair(To, b) + Pair(Cam, c), User, d);
  }

  /** `new Date(x).toISOString()` throws for x: only a non-empty filter is converted. */
  predicate ConversionFails(x: string, toIso: string -> Option<string>) {
    x != "" && toIso(x).None?
  }

  /**
   * `buildQuery`: a parameter per non-empty filter, in the order from, to,
   * cam, user, dates converted by `toIso` (None where `toISOString` would
   * throw). None when a conversion fails.
   */
  method BuildQuery(f: Filters, toIso: string -> Option<string>) returns (q: Option<seq<Param>>)
    ensures q.None? <==> ConversionFails(f.from, toIso) || ConversionFails(f.to, toIso)
    ensures q.Some? ==> Lookup(q.value, From) == (if f.from == "" then None else toIso(f.from))
    ensures q.Some? ==> Lookup(q.value, To) == (if f.to == "" then None else toIso(f.to))
    ensures q.Some? ==> Lookup(q.value, Cam) == (if f.camNum == "" then None else Some(f.camNum))
    ensures q.Some? ==> Lookup(q.value, User) == (if f.userId == "" then None else Some(f.userId))
    ensures q.Some? ==> InRankOrder(q.value) && RanksBelow(q.value, 4)
  {
    var params: seq<Param> := [];
    ghost var a: Option<string> := if f.from == "" then None else toIso(f.from);
    ghost var b: Option<string> := if f.to == "" then None else toIso(f.to);
    ghost var c: Option<string> := if f.camNum == "" then None else Some(f.camNum);
    ghost var d: Option<string> := if f.userId == "" then None else Some(f.userId);
    if f.from != "" {
      var iso := toIso(f.from);
      if iso.None? {
        return None;
      }
      params := SetParam(params, From, iso.value);
    }
    assert params == Pair(From, a);
    if f.to != "" {
      var iso := toIso(f.to);
      if iso.None? {
        return None;
      }
      SetTo(a, iso.value);
      params := SetParam(params, To, iso.value);
    }
    assert params == Pair(From, a) + Pair(To, b);
    if f.camNum != "" {
      SetCam(a, b, f.camNum);
      params := SetParam(params, Cam, f.camNum);
    }
    assert params == Pair(From, a) + Pair(To, b) + Pair(Cam, c);
    if f.userId != "" {
      SetUser(a, b, c, f.userId);
      params := SetParam(params, User, f.userId);
    }
    assert params == Pair(From, a) + Pair(To, b) + Pair(Cam, c) + Pair(User, d);
    QueryShape(a, b, c, d);
    q := Some(params);
  }
}
