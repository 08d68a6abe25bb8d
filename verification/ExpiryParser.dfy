/** The line state machine over the expiry table, and the round trip from printed rows back to their times. */
module ExpiryParser {
  import opened Common
  import opened Text
  import opened ExpiryTable

  /** The decoder of a date text into nanoseconds; it may reject the text. */
  type DateDecoder = string -> Option<int>

  datatype Parser = Parser(parse: bool, expires: map<string, int>)

  predicate IsHeader(line: string) {
    Contains(line, "CERTIFICATE") && Contains(line, "EXPIRES")
  }

  /** The entry a line adds once a header was seen. */
  function Reading(decode: DateDecoder, line: string): Option<(string, int)> {
    match Find(DATE, line)
    case None => None
    case Some((before, date)) =>
      match decode(date)
      case None => None
      case Some(t) => Some((Trim(before), t))
  }

  function Added(m: map<string, int>, e: Option<(string, int)>): map<string, int> {
    if e.None? then m else m[e.value.0 := e.value.1]
  }

  function ReadLine(decode: DateDecoder, p: Parser, line: string): Parser {
    Parser(p.parse || IsHeader(line), if p.parse then Added(p.expires, Reading(decode, line)) else p.expires)
  }

  function ReadLines(decode: DateDecoder, p: Parser, lines: seq<string>): Parser {
    if lines == [] then p
    else ReadLine(decode, ReadLines(decode, p, lines[..|lines| - 1]), lines[|lines| - 1])
  }

  const START := Parser(false, map[])

  function Parsed(decode: DateDecoder, input: string): map<string, int> {
    ReadLines(decode, START, Split(input, '\n')).expires
  }

  /** parsekubeadmAlphaCertsCheckExpiration. */
  method Parse(decode: DateDecoder, input: string) returns (certExpires: map<string, int>)
    ensures certExpires == Parsed(decode, input)
  {
    certExpires := map[];
    var lines := Split(input, '\n');
    var parse := false;
    for i := 0 to |lines|
      invariant ReadLines(decode, START, lines[..i]) == Parser(parse, certExpires)
    {
      var line := lines[i];
      assert lines[..i + 1][..i] == lines[..i];
      if parse {
        var ss := Find(DATE, line);
        if ss.None? { continue; }
        var cert := Trim(ss.value.0);
        var t := decode(ss.value.1);
        if t.None? { continue; }
        certExpires := certExpires[cert := t.value];
      }
      if Contains(line, "CERTIFICATE") && Contains(line, "EXPIRES") {
        parse := true;
      }
    }
    assert lines[..|lines|] == lines;
  }

  // ---- What lines add ----

  lemma {:induction false} ReadInTurn(decode: DateDecoder, p: Parser, a: seq<string>, b: seq<string>)
    ensures ReadLines(decode, p, a + b) == ReadLines(decode, ReadLines(decode, p, a), b)
  {
    if b == [] {
      assert a + b == a;
    } else {
      var n := |b| - 1;
      ReadInTurn(decode, p, a, b[..n]);
      assert (a + b)[..|a + b| - 1] == a + b[..n];
    }
  }

  /** The entries of some lines alone; the last entry for a name wins. */
  function Entries(decode: DateDecoder, lines: seq<string>): map<string, int> {
    if lines == [] then map[]
    else Added(Entries(decode, lines[..|lines| - 1]), Reading(decode, lines[|lines| - 1]))
  }

  /** Once a header was seen, lines add their own entries, which override earlier ones, and nothing else. */
  lemma {:induction false} ReadAfterHeader(decode: DateDecoder, m: map<string, int>, lines: seq<string>)
    ensures ReadLines(decode, Parser(true, m), lines) == Parser(true, m + Entries(decode, lines))
  {
    if lines == [] {
      assert m + map[] == m;
    } else {
      var n := |lines| - 1;
      ReadAfterHeader(decode, m, lines[..n]);
      var e := Reading(decode, lines[n]);
      assert m + Added(Entries(decode, lines[..n]), e) == Added(m + Entries(decode, lines[..n]), e);
    }
  }

  /** A header is a line in which both words stand somewhere. */
  lemma HeaderIff(line: string)
    ensures IsHeader(line) <==>
            && (exists a, b :: line == a + "CERTIFICATE" + b)
            && (exists a, b :: line == a + "EXPIRES" + b)
  {
    ContainsIff(line, "CERTIFICATE");
    ContainsIff(line, "EXPIRES");
  }

  lemma ContainsIff(s: string, pattern: string)
    ensures Contains(s, pattern) <==> exists a, b :: s == a + pattern + b
  {
    if Contains(s, pattern) {
      var i: nat :| i <= |s| && At(s, i, pattern);
      assert s == s[..i] + pattern + s[i + |pattern|..];
    }
    if a, b :| s == a + pattern + b {
      assert s[|a|..|a| + |pattern|] == pattern;
      assert At(s, |a|, pattern);
    }
  }

  /** The header lines that kubeadm prints, of either table, are headers and hold no date. */
  lemma PrintedHeader(between: string, after: string)
    requires forall i | 0 <= i < |between| :: !Digit(between[i])
    requires forall i | 0 <= i < |after| :: !Digit(after[i])
    ensures var line := "CERTIFICATE" + between + "EXPIRES" + after;
            IsHeader(line) && Find(DATE, line).None?
  {
    var line := "CERTIFICATE" + between + "EXPIRES" + after;
    assert line == "" + "CERTIFICATE" + (between + "EXPIRES" + after);
    assert line == ("CERTIFICATE" + between) + "EXPIRES" + after;
    HeaderIff(line);
    DateIsUsable();
    WordsHaveNoDigits();
    NoDigitNoDate(DATE, line);
  }

  lemma WordsHaveNoDigits()
    ensures forall i | 0 <= i < |"CERTIFICATE"| :: !Digit("CERTIFICATE"[i])
    ensures forall i | 0 <= i < |"EXPIRES"| :: !Digit("EXPIRES"[i])
  {
  }

  /** Before the first header nothing is read, dates or not. */
  lemma {:induction false} NothingBeforeHeader(decode: DateDecoder, lines: seq<string>)
    requires forall i | 0 <= i < |lines| :: !IsHeader(lines[i])
    ensures ReadLines(decode, START, lines) == START
  {
    if lines != [] { NothingBeforeHeader(decode, lines[..|lines| - 1]); }
  }

  lemma {:induction false} HeaderIsSeen(decode: DateDecoder, p: Parser, lines: seq<string>, i: nat)
    requires i < |lines| && IsHeader(lines[i])
    ensures ReadLines(decode, p, lines).parse
  {
    var n := |lines| - 1;
    if i < n { HeaderIsSeen(decode, p, lines[..n], i); }
  }

  /** Parsing distributes over concatenation at a line break once a header was seen. */
  lemma {:induction false} ParsedConcat(decode: DateDecoder, a: string, b: string, i: nat)
    requires i < |Split(a, '\n')| && IsHeader(Split(a, '\n')[i])
    ensures Parsed(decode, a + ['\n'] + b) == Parsed(decode, a) + Entries(decode, Split(b, '\n'))
  {
    SplitConcat(a, b, '\n');
    ReadInTurn(decode, START, Split(a, '\n'), Split(b, '\n'));
    HeaderIsSeen(decode, START, Split(a, '\n'), i);
    ReadAfterHeader(decode, Parsed(decode, a), Split(b, '\n'));
  }

  // ---- The round trip ----

  datatype Row = Row(lead: string, name: string, pad: string, date: Date, tail: string)

  /** The blanks within a line. */
  predicate Blank(c: char) {
    c == ' ' || c == '\t' || c == '\r' || c == 11 as char || c == 12 as char
  }

  predicate AllBlank(s: string) {
    forall i | 0 <= i < |s| :: Blank(s[i])
  }

  /** Any name without blanks at its ends, any date, and trailing columns in which no further date appears. */
  ghost predicate ValidRow(r: Row) {
    && AllBlank(r.lead) && AllBlank(r.pad)
    && '\n' !in r.name && (r.name != "" ==> !Blank(r.name[0]) && !Blank(r.name[|r.name| - 1]))
    && r.date.Valid() && Plain(DATE, r.date.zone, r.tail) && '\n' !in r.tail
  }

  function Print(r: Row): string {
    r.lead + r.name + r.pad + (" " + (r.date.Show() + " " + r.tail))
  }

  /** A line of the output: a row of a table, or a header, a blank or any other text without a date. */
  datatype Line = Dated(row: Row) | Dateless(text: string)

  ghost predicate ValidLine(line: Line) {
    match line
    case Dated(row) => ValidRow(row)
    case Dateless(text) => '\n' !in text && Find(DATE, text).None?
  }

  function Texts(lines: seq<Line>): seq<string> {
    if lines == [] then []
    else
      var n := |lines| - 1;
      Texts(lines[..n]) + [TextOf(lines[n])]
  }

  /** The rows of all tables in the output. */
  function Rows(lines: seq<Line>): seq<Row> {
    if lines == [] then []
    else
      var n := |lines| - 1;
      if lines[n].Dated? then Rows(lines[..n]) + [lines[n].row] else Rows(lines[..n])
  }

  /** Name to time, the last row for a name winning; a row whose date the decoder rejects counts for nothing. */
  function Table(decode: DateDecoder, rows: seq<Row>): map<string, int> {
    if rows == [] then map[]
    else
      var r := rows[|rows| - 1];
      var before := Table(decode, rows[..|rows| - 1]);
      var t := decode(r.date.Show());
      if t.None? then before else before[r.name := t.value]
  }

  /** The table says exactly what the rows say. */
  lemma {:induction false} TableMeaning(decode: DateDecoder, rows: seq<Row>, name: string)
    ensures name in Table(decode, rows) <==>
            exists i | 0 <= i < |rows| :: rows[i].name == name && decode(rows[i].date.Show()).Some?
    ensures forall i | 0 <= i < |rows| && rows[i].name == name && decode(rows[i].date.Show()).Some? &&
                       (forall j | i < j < |rows| :: rows[j].name == name ==> decode(rows[j].date.Show()).None?) ::
              name in Table(decode, rows) && Table(decode, rows)[name] == decode(rows[i].date.Show()).value
  {
    if rows != [] {
      var n := |rows| - 1;
      TableMeaning(decode, rows[..n], name);
      assert forall i | 0 <= i < n :: rows[..n][i] == rows[i];
      if i :| 0 <= i < n && rows[i].name == name && decode(rows[i].date.Show()).Some? {
        assert rows[..n][i] == rows[i];
      }
    }
  }

  lemma RowReading(decode: DateDecoder, r: Row)
    requires ValidRow(r)
    ensures Reading(decode, Print(r)) ==
            match decode(r.date.Show()) { case None => None case Some(t) => Some((r.name, t)) }
  {
    DateIsUsable();
    FindInRow(DATE, r.lead + r.name + r.pad, r.date, r.tail);
    TrimPadded(r.lead, r.name, r.pad);
  }

  function TextOf(line: Line): string {
    match line
    case Dated(row) => Print(row)
    case Dateless(text) => text
  }

  lemma TextsSnoc(lines: seq<Line>)
    requires lines != []
    ensures var n := |lines| - 1;
            Texts(lines) == Texts(lines[..n]) + [TextOf(lines[n])]
  {
  }

  lemma EntriesSnoc(decode: DateDecoder, texts: seq<string>, text: string)
    ensures Entries(decode, texts + [text]) == Added(Entries(decode, texts), Reading(decode, text))
  {
    assert (texts + [text])[..|texts|] == texts;
  }

  lemma TableSnoc(decode: DateDecoder, rows: seq<Row>, r: Row)
    ensures var t := decode(r.date.Show());
            Table(decode, rows + [r]) == if t.None? then Table(decode, rows) else Table(decode, rows)[r.name := t.value]
  {
    assert (rows + [r])[..|rows|] == rows;
  }

  /** The entries of an output are those of its rows. */
  lemma {:induction false} LinesEntries(decode: DateDecoder, lines: seq<Line>)
    requires forall i | 0 <= i < |lines| :: ValidLine(lines[i])
    ensures Entries(decode, Texts(lines)) == Table(decode, Rows(lines))
  {
    if lines != [] {
      var n := |lines| - 1;
      LinesEntries(decode, lines[..n]);
      TextsSnoc(lines);
      EntriesSnoc(decode, Texts(lines[..n]), TextOf(lines[n]));
      if lines[n].Dated? {
        RowReading(decode, lines[n].row);
        TableSnoc(decode, Rows(lines[..n]), lines[n].row);
      }
    }
  }

  lemma ShowOneLine(d: Date)
    requires d.Valid()
    ensures '\n' !in d.Show()
  {
  }

  lemma PrintOneLine(r: Row)
    requires ValidRow(r)
    ensures '\n' !in Print(r)
  {
    ShowOneLine(r.date);
  }

  lemma {:induction false} TextsAreClean(lines: seq<Line>)
    requires forall i | 0 <= i < |lines| :: ValidLine(lines[i])
    ensures Clean(Texts(lines), '\n')
  {
    if lines != [] {
      var n := |lines| - 1;
      TextsAreClean(lines[..n]);
      if lines[n].Dated? { PrintOneLine(lines[n].row); }
    }
  }

  /** An output: any lines without a header, a header, and any mix of rows and lines without a date. */
  ghost predicate ValidOutput(intro: seq<string>, header: string, lines: seq<Line>) {
    && Clean(intro, '\n') && (forall i | 0 <= i < |intro| :: !IsHeader(intro[i]))
    && '\n' !in header && IsHeader(header)
    && (forall i | 0 <= i < |lines| :: ValidLine(lines[i]))
  }

  function Output(intro: seq<string>, header: string, lines: seq<Line>): string {
    Join(intro + [header] + Texts(lines), '\n')
  }

  /**
   Printing any rows, in one table or in several with headers, blanks and other lines without a date between them, and
   parsing gives back the map from names to times, the last row winning. Text before the first header adds nothing.
   */
  lemma {:induction false} RoundTrip(decode: DateDecoder, intro: seq<string>, header: string, lines: seq<Line>)
    requires ValidOutput(intro, header, lines)
    ensures Parsed(decode, Output(intro, header, lines)) == Table(decode, Rows(lines))
  {
    var texts := Texts(lines);
    TextsAreClean(lines);
    SplitJoin(intro + [header] + texts, '\n');
    NothingBeforeHeader(decode, intro);
    ReadInTurn(decode, START, intro + [header], texts);
    ReadInTurn(decode, START, intro, [header]);
    OneLine(decode, START, header);
    ReadAfterHeader(decode, map[], texts);
    LinesEntries(decode, lines);
    assert map[] + Table(decode, Rows(lines)) == Table(decode, Rows(lines));
  }

  lemma OneLine(decode: DateDecoder, p: Parser, line: string)
    ensures ReadLines(decode, p, [line]) == ReadLine(decode, p, line)
  {
    assert [line][..0] == [];
  }
}
