/**
  The record schema of the sports-rankings table and its CSV ingestion, shared
  by the full page and the embeddable section (both declare the same
  COUNTRY_NAMES, SportData, WIKI_PAGE_MAPPING and CSV parse).
 */
module Sports {

  import opened JsString

  /** The six country columns, in the order of the `countries` constant and of the CSV header. */
  datatype Country = FRA | GER | USA | CHI | RUS | JAP

  const Countries: seq<Country> := [FRA, GER, USA, CHI, RUS, JAP]

  /** Position of a country in `Countries`; its CSV column is one more. */
  function Ordinal(c: Country): (k: nat)
    ensures k < |Countries| && Countries[k] == c
  {
    match c
    case FRA => 0
    case GER => 1
    case USA => 2
    case CHI => 3
    case RUS => 4
    case JAP => 5
  }

  /** COUNTRY_NAMES: the display name of a country. */
  function CountryName(c: Country): string {
    match c
    case FRA => "France"
    case GER => "Germany"
    case USA => "United States"
    case CHI => "China"
    case RUS => "Russia"
    case JAP => "Japan"
  }

  /** One value per country. */
  datatype PerCountry<T> = PerCountry(fra: T, ger: T, usa: T, chi: T, rus: T, jap: T) {

    function At(c: Country): T {
      match c
      case FRA => fra
      case GER => ger
      case USA => usa
      case CHI => chi
      case RUS => rus
      case JAP => jap
    }

    function Map<U>(f: T -> U): (r: PerCountry<U>)
      ensures forall c :: r.At(c) == f(At(c))
    {
      PerCountry(f(fra), f(ger), f(usa), f(chi), f(rus), f(jap))
    }
  }

  /** SportData: a labelled row with one rank per country (lower is better). */
  datatype Sport = Sport(id: int, sport: string, ranks: PerCountry<int>)

  /** WIKI_PAGE_MAPPING: Wikipedia page titles for the upper-cased sport names the table knows. */
  const WikiPageMapping: map<string, string> := map[
    "VOLLEYBALL" := "Volleyball",
    "SOCCER" := "Association_football",
    "BASKETBALL" := "Basketball",
    "MARATHON" := "Marathon",
    "TENNIS" := "Tennis",
    "RUGBY" := "Rugby_union",
    "BOX" := "Boxing",
    "GOLF" := "Golf",
    "CRICKET" := "Cricket",
    "F1" := "Formula_One",
    "PING PONG" := "Table_tennis",
    "GYMNASTICS" := "Gymnastics"
  ]

  // ---------------------------------------------------------------------
  // CSV ingestion
  // ---------------------------------------------------------------------

  /** `values[k]` of a split line; reading past the end gives `undefined`, which parseInt reads as the text "undefined". */
  function Column(values: seq<string>, k: nat): string {
    if k < |values| then values[k] else "undefined"
  }

  /** Columns 1..6 of a split line, one per country. */
  function Columns(values: seq<string>): PerCountry<string> {
    PerCountry(Column(values, 1), Column(values, 2), Column(values, 3),
               Column(values, 4), Column(values, 5), Column(values, 6))
  }

  /** The six rank columns, each through `parseInt(x) || 0`. */
  function ParseRanks(values: seq<string>): PerCountry<int> {
    Columns(values).Map(ParseIntOrZero)
  }

  /** One data line: column 0 verbatim as the label, the ranks parsed, the given id. */
  function ParseLine(line: string, id: int): Sport {
    var values := Split(line, ',');
    Sport(id, values[0], ParseRanks(values))
  }

  /** The data lines of a CSV text: the lines of the trimmed text, without the header line. */
  function DataLines(text: string): seq<string> {
    Split(Trim(text), '\n')[1..]
  }

  /** The line at index `i`, or the empty line outside the range. */
  function LineAt(lines: seq<string>, i: int): string {
    if 0 <= i < |lines| then lines[i] else ""
  }

  /** The records of the given data lines: each line parsed, numbered from 1 in line order. */
  function Records(lines: seq<string>): seq<Sport> {
    seq(|lines|, i => ParseLine(LineAt(lines, i), i + 1))
  }

  /** Each record is the parse of its own line, under its 1-based position. */
  lemma RecordsParseLines(lines: seq<string>)
    ensures |Records(lines)| == |lines|
    ensures forall i :: 0 <= i < |lines| ==> Records(lines)[i] == ParseLine(lines[i], i + 1)
  {
    forall i | 0 <= i < |lines| ensures Records(lines)[i] == ParseLine(lines[i], i + 1) {
      RecordAt(lines, i);
    }
  }

  lemma RecordAt(lines: seq<string>, i: int)
    requires 0 <= i < |lines|
    ensures Records(lines)[i] == ParseLine(lines[i], i + 1)
  {
  }

  /** fetchData's parse: one record per data line of the text. */
  function Ingest(text: string): (r: seq<Sport>)
    ensures |r| == |DataLines(text)|
  {
    Records(DataLines(text))
  }

  /**
    Ingestion yields exactly one record per line break of the trimmed text
    (one per line after the header), with ids 1..n in line order, each being
    the parse of its own line.
   */
  lemma IngestLines(text: string)
    ensures |Ingest(text)| == |DataLines(text)| == multiset(Trim(text))['\n']
    ensures forall i :: 0 <= i < |Ingest(text)| ==>
              Ingest(text)[i].id == i + 1 && Ingest(text)[i] == ParseLine(DataLines(text)[i], i + 1)
  {
    SplitCount(Trim(text), '\n');
    var lines := DataLines(text);
    RecordsParseLines(lines);
  }

  /** A country's rank in a parsed line is the parse of the country's column. */
  lemma ParseLineRank(line: string, id: int, c: Country)
    ensures ParseLine(line, id).ranks.At(c) == ParseIntOrZero(Column(Split(line, ','), Ordinal(c) + 1))
  {
    var values := Split(line, ',');
    assert Columns(values).At(c) == Column(values, Ordinal(c) + 1);
  }

  /** A column the line does not have, or one with no digit after its blanks and sign, gives rank 0. */
  lemma UnparsableColumnIsZero(line: string, id: int, c: Country)
    requires var values := Split(line, ',');
             || Ordinal(c) + 1 >= |values|
             || Unsigned(values[Ordinal(c) + 1]) == []
             || !IsDecimalDigit(Unsigned(values[Ordinal(c) + 1])[0])
    ensures ParseLine(line, id).ranks.At(c) == 0
  {
    var values := Split(line, ',');
    ParseLineRank(line, id, c);
    if Ordinal(c) + 1 >= |values| {
      ParseUndefined();
    } else {
      ParseIntWithoutLeadingDigit(values[Ordinal(c) + 1]);
    }
  }

  /** A column holding a numeral followed by anything that does not continue it gives that number. */
  lemma RankIsIntegerPrefix(line: string, id: int, c: Country, n: int, rest: string)
    requires Ordinal(c) + 1 < |Split(line, ',')|
    requires Split(line, ',')[Ordinal(c) + 1] == IntToString(n) + rest
    requires rest == [] || (!IsDecimalDigit(rest[0]) && rest[0] != 'x' && rest[0] != 'X')
    ensures ParseLine(line, id).ranks.At(c) == n
  {
    ParseLineRank(line, id, c);
    ParseIntOfNumeral(n, rest);
  }

  // ---------------------------------------------------------------------
  // Writing a table as CSV, to state what ingestion reads back
  // ---------------------------------------------------------------------

  /** The columns of a record as CSV fields: label, then the six ranks. */
  function RowFields(s: Sport): seq<string> {
    [s.sport, IntToString(s.ranks.fra), IntToString(s.ranks.ger), IntToString(s.ranks.usa),
     IntToString(s.ranks.chi), IntToString(s.ranks.rus), IntToString(s.ranks.jap)]
  }

  function RenderRow(s: Sport): string {
    Join(RowFields(s), ',')
  }

  /** A CSV text: the header line, then one line per record. */
  function RenderCsv(header: string, rows: seq<Sport>): string {
    Join([header] + RenderedLines(rows), '\n')
  }

  /** A character outside every piece and other than the separator is outside the joined text. */
  lemma {:induction false} JoinAvoids(parts: seq<string>, sep: char, c: char)
    requires c != sep
    requires forall k :: 0 <= k < |parts| ==> c !in parts[k]
    ensures c !in Join(parts, sep)
  {
    if |parts| > 1 {
      JoinAvoids(parts[1..], sep, c);
    }
  }

  lemma NumeralAvoids(n: int, c: char)
    requires c != '-' && !IsDecimalDigit(c)
    ensures c !in IntToString(n)
  {
    var m := if n < 0 then -n else n;
    assert forall k :: 0 <= k < |NatToString(m)| ==> IsDecimalDigit(NatToString(m)[k]);
  }

  lemma RowFieldsAvoid(s: Sport, c: char)
    requires c != '-' && !IsDecimalDigit(c) && c !in s.sport
    ensures forall k :: 0 <= k < |RowFields(s)| ==> c !in RowFields(s)[k]
  {
    NumeralAvoids(s.ranks.fra, c);
    NumeralAvoids(s.ranks.ger, c);
    NumeralAvoids(s.ranks.usa, c);
    NumeralAvoids(s.ranks.chi, c);
    NumeralAvoids(s.ranks.rus, c);
    NumeralAvoids(s.ranks.jap, c);
  }

  /** A written line reads back as the same record, under the id ingestion gives it. */
  lemma ParseRenderedRow(s: Sport, id: int)
    requires ',' !in s.sport
    ensures ParseLine(RenderRow(s), id) == s.(id := id)
  {
    RowFieldsAvoid(s, ',');
    SplitJoin(RowFields(s), ',');
    ParseIntToString(s.ranks.fra);
    ParseIntToString(s.ranks.ger);
    ParseIntToString(s.ranks.usa);
    ParseIntToString(s.ranks.chi);
    ParseIntToString(s.ranks.rus);
    ParseIntToString(s.ranks.jap);
  }

  /** A written line ends with the last digit of its JAP rank. */
  lemma RenderedRowEnd(s: Sport)
    ensures |RenderRow(s)| > 0 && IsDecimalDigit(RenderRow(s)[|RenderRow(s)| - 1])
  {
    var fields := RowFields(s);
    JoinEnds(fields, ',');
    var last := fields[|fields| - 1];
    var m := if s.ranks.jap < 0 then -s.ranks.jap else s.ranks.jap;
    assert last[|last| - 1] == NatToString(m)[|NatToString(m)| - 1];
    var r := RenderRow(s);
    assert r[|r| - 1] == r[|r| - |last|..][|last| - 1];
  }

  /** The written lines of a table, one per record. */
  function RenderedLines(rows: seq<Sport>): seq<string> {
    seq(|rows|, i requires 0 <= i < |rows| => RenderRow(rows[i]))
  }

  /** No written line holds a line break, when no label does. */
  lemma RenderedLinesAvoidBreaks(header: string, rows: seq<Sport>)
    requires '\n' !in header
    requires forall i :: 0 <= i < |rows| ==> '\n' !in rows[i].sport
    ensures var parts := [header] + RenderedLines(rows);
            forall k :: 0 <= k < |parts| ==> '\n' !in parts[k]
  {
    var parts := [header] + RenderedLines(rows);
    forall k | 0 <= k < |parts| ensures '\n' !in parts[k] {
      if k > 0 {
        assert parts[k] == RenderRow(rows[k - 1]);
        RowFieldsAvoid(rows[k - 1], '\n');
        JoinAvoids(RowFields(rows[k - 1]), ',', '\n');
      }
    }
  }

  /** A written table starts with its header and ends with a digit or the header, so trim leaves it alone. */
  lemma RenderedTextTrimmed(header: string, rows: seq<Sport>)
    requires header != [] && !IsWhitespace(header[0]) && !IsWhitespace(header[|header| - 1])
    ensures Trim(RenderCsv(header, rows)) == RenderCsv(header, rows)
  {
    var parts := [header] + RenderedLines(rows);
    var text := RenderCsv(header, rows);
    var last := parts[|parts| - 1];
    assert |text| > 0 && text[0] == header[0] && text[|text| - 1] == last[|last| - 1] by {
      JoinEnds(parts, '\n');
      assert text[|text| - 1] == text[|text| - |last|..][|last| - 1];
      assert text[0] == text[..|header|][0];
    }
    assert !IsWhitespace(last[|last| - 1]) by {
      if |rows| > 0 {
        assert last == RenderRow(rows[|rows| - 1]);
        RenderedRowEnd(rows[|rows| - 1]);
      }
    }
    TrimUnpadded(text);
  }

  /** The data lines of a written table are its written rows. */
  lemma RenderedDataLines(header: string, rows: seq<Sport>)
    requires header != [] && !IsWhitespace(header[0]) && !IsWhitespace(header[|header| - 1])
    requires '\n' !in header
    requires forall i :: 0 <= i < |rows| ==> '\n' !in rows[i].sport
    ensures DataLines(RenderCsv(header, rows)) == RenderedLines(rows)
  {
    RenderedTextTrimmed(header, rows);
    RenderedLinesAvoidBreaks(header, rows);
    SplitJoin([header] + RenderedLines(rows), '\n');
  }

  /**
    Writing a table as CSV and ingesting the text gives the table back, renumbered
    1..n: the header line is dropped, every label is read verbatim and every rank
    exactly. It needs a header without line breaks that neither starts nor ends
    with whitespace, and labels without commas or line breaks.
   */
  lemma IngestRender(header: string, rows: seq<Sport>)
    requires header != [] && !IsWhitespace(header[0]) && !IsWhitespace(header[|header| - 1])
    requires '\n' !in header
    requires forall i :: 0 <= i < |rows| ==> ',' !in rows[i].sport && '\n' !in rows[i].sport
    ensures |Ingest(RenderCsv(header, rows))| == |rows|
    ensures forall i :: 0 <= i < |rows| ==> Ingest(RenderCsv(header, rows))[i] == rows[i].(id := i + 1)
  {
    var lines := RenderedLines(rows);
    RenderedDataLines(header, rows);
    RecordsParseLines(lines);
    forall i | 0 <= i < |rows| ensures Ingest(RenderCsv(header, rows))[i] == rows[i].(id := i + 1) {
      ParseRenderedRow(rows[i], i + 1);
    }
  }

  /** The worked example: a header line and one TENNIS line ingest to a single record with id 1. */
  lemma IngestExample(header: string, line: string)
    requires header == "SPORT,FRA,GER,USA,CHI,RUS,JAP"
    requires line == "TENNIS,1,3,2,5,4,6"
    ensures Ingest(header + "\n" + line) == [Sport(1, "TENNIS", PerCountry(1, 3, 2, 5, 4, 6))]
  {
    var row := Sport(0, "TENNIS", PerCountry(1, 3, 2, 5, 4, 6));
    ExampleHeader(header);
    ExampleLine(row, line);
    RenderSingle(header, row);
    IngestRender(header, [row]);
    assert Ingest(header + "\n" + line)[0] == row.(id := 1);
  }

  /** A table of one record is written as the header, a line break and the record's line. */
  lemma RenderSingle(header: string, row: Sport)
    ensures RenderCsv(header, [row]) == header + "\n" + RenderRow(row)
  {
    var parts := [header] + RenderedLines([row]);
    assert parts == [header, RenderRow(row)];
    assert Join(parts, '\n') == parts[0] + ['\n'] + Join(parts[1..], '\n');
  }

  /** The example's header line meets what writing and re-reading a table needs of a header. */
  lemma ExampleHeader(header: string)
    requires header == "SPORT,FRA,GER,USA,CHI,RUS,JAP"
    ensures header != [] && !IsWhitespace(header[0]) && !IsWhitespace(header[|header| - 1])
    ensures '\n' !in header
  {
    assert header[0] == 'S' && header[|header| - 1] == 'P';
  }

  /** The example's TENNIS line is the written form of its record. */
  lemma ExampleLine(row: Sport, line: string)
    requires row == Sport(0, "TENNIS", PerCountry(1, 3, 2, 5, 4, 6))
    requires line == "TENNIS,1,3,2,5,4,6"
    ensures RenderRow(row) == line
    ensures ',' !in row.sport && '\n' !in row.sport
  {
    ExampleFields(row);
    JoinSeven(RowFields(row), ',');
  }

  /** The example record's fields: its label and the numerals of its ranks. */
  lemma ExampleFields(row: Sport)
    requires row == Sport(0, "TENNIS", PerCountry(1, 3, 2, 5, 4, 6))
    ensures RowFields(row) == ["TENNIS", "1", "3", "2", "5", "4", "6"]
  {
  }

  /** Seven joined fields, spelled out. */
  lemma JoinSeven(f: seq<string>, sep: char)
    requires |f| == 7
    ensures Join(f, sep) == f[0] + [sep] + (f[1] + [sep] + (f[2] + [sep] + (f[3] + [sep] + (f[4] + [sep] + (f[5] + [sep] + f[6])))))
  {
    assert Join(f[6..], sep) == f[6];
    assert Join(f[5..], sep) == f[5] + [sep] + f[6] by { assert f[5..][1..] == f[6..]; }
    assert Join(f[4..], sep) == f[4] + [sep] + Join(f[5..], sep) by { assert f[4..][1..] == f[5..]; }
    assert Join(f[3..], sep) == f[3] + [sep] + Join(f[4..], sep) by { assert f[3..][1..] == f[4..]; }
    assert Join(f[2..], sep) == f[2] + [sep] + Join(f[3..], sep) by { assert f[2..][1..] == f[3..]; }
    assert Join(f[1..], sep) == f[1] + [sep] + Join(f[2..], sep) by { assert f[1..][1..] == f[2..]; }
  }
}
