/**
 The CSV export of the list: a fixed header line, then one line per stored
 showing in stored order, fields joined with commas and lines with a line
 feed. Fields are written verbatim, with no quoting, and booleans as Y/N.
 Nothing is produced for an empty list.
 */
module Export {
  import opened Text
  import opened Records

  const Headers: seq<string> :=
    ["Schedule ID", "Movie Title", "Theater", "Show Date", "Show Time", "Subtitles", "IMAX", "Notes"]

  /** The column titles joined with commas. */
  const HeaderLine: string := Join(Headers, ",")

  /** The columns one exported line carries: every stored field except the save stamp. */
  datatype ExportedRow = ExportedRow(
    showId: int,
    movieTitle: string,
    theater: string,
    showDate: string,
    showTime: string,
    subtitles: bool,
    imax: bool,
    notes: string)

  function Exported(s: Show): ExportedRow
  {
    ExportedRow(s.showId, s.movieTitle, s.theater, s.showDate, s.showTime, s.subtitles, s.imax, s.notes)
  }

  // ---------------------------------------------------------------------
  // Field text

  /** `String(n)` for an integer: an optional minus sign and the decimal digits. */
  function IntText(n: int): (s: string)
    ensures ParseInt(s) == Some(n)
    ensures n >= 0 ==> s == NatToString(n)
    ensures n < 0 ==> s == "-" + NatToString(-n)
    ensures ',' !in s && '\n' !in s
  {
    if n < 0 then
      var t := NatToString(-n);
      ParseNatToString(-n);
      NoSeparatorInDigits(t);
      assert ("-" + t)[1..] == t;
      "-" + t
    else
      ParseNatToString(n);
      NoSeparatorInDigits(NatToString(n));
      NatToString(n)
  }

  /** Reads an integer written by `IntText`; a lone "-0" reads as zero. */
  function ParseInt(s: string): Option<int>
  {
    if |s| > 0 && s[0] == '-' then
      match ParseNat(s[1..])
      case None => None
      case Some(v) => Some(-(v as int))
    else
      match ParseNat(s)
      case None => None
      case Some(v) => Some(v)
  }

  lemma NoSeparatorInDigits(s: string)
    requires AllDigits(s)
    ensures ',' !in s && '\n' !in s
  {
  }

  function YesNo(b: bool): string
  {
    if b then "Y" else "N"
  }

  // ---------------------------------------------------------------------
  // Lines

  function Fields(s: Show): (f: seq<string>)
    ensures |f| == 8
  {
    [IntText(s.showId), s.movieTitle, s.theater, s.showDate, s.showTime, YesNo(s.subtitles), YesNo(s.imax), s.notes]
  }

  /** One showing's line. */
  function Row(s: Show): string
  {
    Join(Fields(s), ",")
  }

  /** One line per showing, in stored order. */
  function Rows(runs: seq<Show>): (rows: seq<string>)
    ensures |rows| == |runs|
    decreases |runs|
  {
    if |runs| == 0 then [] else [Row(runs[0])] + Rows(runs[1..])
  }

  function Lines(runs: seq<Show>): (lines: seq<string>)
    ensures |lines| == |runs| + 1
    ensures lines[0] == HeaderLine && lines[1..] == Rows(runs)
  {
    var lines := [HeaderLine] + Rows(runs);
    assert lines[1..] == Rows(runs);
    lines
  }

  /** The file contents, or None when there is nothing to export. */
  function ExportCsv(runs: seq<Show>): (r: Option<string>)
    ensures r.None? <==> |runs| == 0
  {
    if |runs| == 0 then None else Some(Join(Lines(runs), "\n"))
  }

  // ---------------------------------------------------------------------
  // Reading an export back

  function DecodeRow(line: string): Option<ExportedRow>
  {
    var f := Split(line, ',');
    if |f| != 8 then None
    else if f[5] !in ["Y", "N"] || f[6] !in ["Y", "N"] then None
    else
      match ParseInt(f[0])
      case None => None
      case Some(id) => Some(ExportedRow(id, f[1], f[2], f[3], f[4], f[5] == "Y", f[6] == "Y", f[7]))
  }

  function DecodeRows(lines: seq<string>): Option<seq<ExportedRow>>
    decreases |lines|
  {
    if |lines| == 0 then Some([])
    else
      match (DecodeRow(lines[0]), DecodeRows(lines[1..]))
      case (Some(r), Some(rs)) => Some([r] + rs)
      case _ => None
  }

  /** A file read back: the header line, then one decoded row per line. */
  function DecodeCsv(text: string): Option<seq<ExportedRow>>
  {
    var lines := Split(text, '\n');
    if lines[0] != HeaderLine then None else DecodeRows(lines[1..])
  }

  lemma HeaderSingleLine()
    ensures '\n' !in HeaderLine
  {
    NotInJoin(Headers, ",", '\n');
  }

  /** No line feed in any free-text field: the condition for a showing to export as exactly one line. */
  predicate SingleLine(s: Show)
  {
    '\n' !in s.movieTitle && '\n' !in s.theater && '\n' !in s.showDate && '\n' !in s.showTime && '\n' !in s.notes
  }

  /** Also no comma in any free-text field: the condition for an unquoted line to read back. */
  predicate Plain(s: Show)
  {
    && SingleLine(s)
    && ',' !in s.movieTitle && ',' !in s.theater && ',' !in s.showDate && ',' !in s.showTime && ',' !in s.notes
  }

  /** A showing's line holds no line feed when its text fields hold none, whatever commas they contain. */
  lemma RowSingleLine(s: Show)
    requires SingleLine(s)
    ensures '\n' !in Row(s)
  {
    NotInJoin(Fields(s), ",", '\n');
  }

  /** A character in none of the parts and not in the separator is not in the joined text. */
  lemma {:induction false} NotInJoin(parts: seq<string>, sep: string, c: char)
    requires forall i :: 0 <= i < |parts| ==> c !in parts[i]
    requires c !in sep
    ensures c !in Join(parts, sep)
    decreases |parts|
  {
    if |parts| > 1 {
      NotInJoin(parts[1..], sep, c);
    }
  }

  /** A plain showing's line splits back into its eight fields and decodes to its exported columns. */
  lemma RowRoundTrip(s: Show)
    requires Plain(s)
    ensures Split(Row(s), ',') == Fields(s)
    ensures DecodeRow(Row(s)) == Some(Exported(s))
  {
    SplitJoin(Fields(s), ',');
  }

  /** Every showing's exported columns, in stored order. */
  function ExportedAll(runs: seq<Show>): (rs: seq<ExportedRow>)
    ensures |rs| == |runs|
    decreases |runs|
  {
    if |runs| == 0 then [] else [Exported(runs[0])] + ExportedAll(runs[1..])
  }

  /** No line of the rows holds a line feed when no text field does. */
  lemma {:induction false} RowsSingleLines(runs: seq<Show>)
    requires forall i :: 0 <= i < |runs| ==> SingleLine(runs[i])
    ensures forall i :: 0 <= i < |runs| ==> '\n' !in Rows(runs)[i]
    decreases |runs|
  {
    if |runs| > 0 {
      RowSingleLine(runs[0]);
      RowsSingleLines(runs[1..]);
      var rows := Rows(runs);
      assert forall i :: 1 <= i < |runs| ==> rows[i] == Rows(runs[1..])[i - 1];
    }
  }

  lemma {:induction false} DecodeRowsOf(runs: seq<Show>)
    requires forall i :: 0 <= i < |runs| ==> Plain(runs[i])
    ensures DecodeRows(Rows(runs)) == Some(ExportedAll(runs))
    decreases |runs|
  {
    if |runs| > 0 {
      RowRoundTrip(runs[0]);
      DecodeRowsOf(runs[1..]);
      var rows := Rows(runs);
      assert rows[0] == Row(runs[0]) && rows[1..] == Rows(runs[1..]);
    }
  }

  /**
   Exporting a non-empty list of plain showings and reading the file back
   gives every showing's columns, in stored order.
   */
  lemma ExportRoundTrip(runs: seq<Show>)
    requires |runs| > 0
    requires forall i :: 0 <= i < |runs| ==> Plain(runs[i])
    ensures Split(ExportCsv(runs).value, '\n') == Lines(runs)
    ensures DecodeCsv(ExportCsv(runs).value) == Some(ExportedAll(runs))
  {
    ExportSplitsIntoLines(runs);
    DecodeRowsOf(runs);
  }

  /**
   The file is the header line followed by one line per showing, in stored
   order, as long as no text field holds a line feed; commas do not matter.
   */
  lemma ExportSplitsIntoLines(runs: seq<Show>)
    requires |runs| > 0
    requires forall i :: 0 <= i < |runs| ==> SingleLine(runs[i])
    ensures Split(ExportCsv(runs).value, '\n') == Lines(runs)
  {
    var lines := Lines(runs);
    HeaderSingleLine();
    RowsSingleLines(runs);
    forall i | 0 <= i < |lines|
      ensures '\n' !in lines[i]
    {
      if i > 0 {
        assert lines[i] == lines[1..][i - 1];
      }
    }
    SplitJoin(lines, '\n');
  }

  // ---------------------------------------------------------------------
  // Worked example

  /**
   The header line splits at its commas into the eight column titles in
   order; since joining a split gives the text back, this fixes the line.
   */
  lemma HeaderText()
    ensures Split(HeaderLine, ',') == ["Schedule ID", "Movie Title", "Theater", "Show Date", "Show Time", "Subtitles", "IMAX", "Notes"]
  {
    SplitJoin(Headers, ',');
  }

  /** Dune in Theater 1 on 01/07/2024 at 18:00, with subtitles, not IMAX, no notes. */
  const DuneShow := Show(1, "01/07/2024", "18:00", "Dune", "Theater 1", true, false, "", "2024-06-30T10:00:00.000Z")

  lemma DuneFields()
    ensures Fields(DuneShow) == ["1", "Dune", "Theater 1", "01/07/2024", "18:00", "Y", "N", ""]
  {
    assert NatToString(1) == "1";
  }

  /**
   The worked line: the id, the four text columns, the Y/N flags, and an
   empty notes column after the last comma; it reads back as Dune's columns.
   */
  lemma DuneRow()
    ensures Split(Row(DuneShow), ',') == ["1", "Dune", "Theater 1", "01/07/2024", "18:00", "Y", "N", ""]
    ensures Join(["1", "Dune", "Theater 1", "01/07/2024", "18:00", "Y", "N", ""], ",") == Row(DuneShow)
    ensures DecodeRow(Row(DuneShow)) == Some(ExportedRow(1, "Dune", "Theater 1", "01/07/2024", "18:00", true, false, ""))
  {
    DuneFields();
    RowRoundTrip(DuneShow);
  }

  // ---------------------------------------------------------------------
  // Commas are not escaped

  lemma {:induction false} CountAppend(a: string, b: string, c: char)
    ensures Count(a + b, c) == Count(a, c) + Count(b, c)
    decreases |a|
  {
    if |a| > 0 {
      assert (a + b)[1..] == a[1..] + b;
      CountAppend(a[1..], b, c);
    } else {
      assert a + b == b;
    }
  }

  lemma {:induction false} CountPositive(s: string, c: char)
    requires c in s
    ensures Count(s, c) > 0
    decreases |s|
  {
    if s[0] != c {
      assert c in s[1..];
      CountPositive(s[1..], c);
    }
  }

  /** Joining k parts puts at least k - 1 separators in the text, plus those inside any one part. */
  lemma {:induction false} CountJoin(parts: seq<string>, c: char, i: nat)
    requires i < |parts|
    ensures Count(Join(parts, [c]), c) >= |parts| - 1 + Count(parts[i], c)
    decreases |parts|
  {
    if |parts| > 1 {
      var rest := parts[1..];
      CountAppend(parts[0] + [c], Join(rest, [c]), c);
      CountAppend(parts[0], [c], c);
      assert Count([c], c) == 1 by { assert [c][1..] == []; }
      if i == 0 {
        CountJoin(rest, c, 0);
      } else {
        CountJoin(rest, c, i - 1);
      }
    }
  }

  /** A comma in a movie title spills it into the next column: the line no longer has eight fields. */
  lemma CommaInTitleShiftsColumns(s: Show)
    requires ',' in s.movieTitle
    ensures |Split(Row(s), ',')| > 8
    ensures DecodeRow(Row(s)).None?
  {
    CountPositive(s.movieTitle, ',');
    CountJoin(Fields(s), ',', 1);
  }
}
