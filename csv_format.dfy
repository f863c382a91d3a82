/** The CSV dialect of the report export: every data cell between double
    quotes with each inner quote doubled (as in section 2 of RFC 4180), cells
    separated by ';', lines by a single LF, the header line unquoted, and the
    whole text behind a U+FEFF byte-order mark. Beside the writer stands a
    reader for the same dialect; the lemmas show that reading gives back
    exactly the header and the cells that were written. */
module CsvFormat {
  import opened Text
  import opened Notices

  const Bom: char := '\U{FEFF}'

  // ---------------------------------------------------------------------------
  // One cell

  /** `s.replace(/"/g, '""')`. */
  function Escape(s: string): (r: string)
    ensures |r| >= |s|
  {
    if s == [] then [] else (if s[0] == '"' then "\"\"" else [s[0]]) + Escape(s[1..])
  }

  /** A written cell: the escaped text between two double quotes. */
  function Quote(s: string): (r: string)
    ensures |r| >= 2 && r[0] == '"' && r[|r| - 1] == '"'
  {
    "\"" + Escape(s) + "\""
  }

  /** Reads each doubled quote as one quote. */
  function Unescape(s: string): string {
    if s == [] then []
    else if |s| >= 2 && s[0] == '"' && s[1] == '"' then "\"" + Unescape(s[2..])
    else [s[0]] + Unescape(s[1..])
  }

  /** Dropping the outer quotes of a written cell and un-doubling its quotes
      gives back the cell text exactly. */
  lemma {:induction false} UnquoteRoundTrip(s: string)
    ensures Unescape(Quote(s)[1..|Quote(s)| - 1]) == s
  {
    EscapeRoundTrip(s);
    assert Quote(s)[1..|Quote(s)| - 1] == Escape(s);
  }

  lemma {:induction false} EscapeRoundTrip(s: string)
    ensures Unescape(Escape(s)) == s
  {
    if s != [] {
      EscapeRoundTrip(s[1..]);
      if s[0] == '"' {
        assert Escape(s) == "\"\"" + Escape(s[1..]);
        assert Escape(s)[2..] == Escape(s[1..]);
      } else {
        assert Escape(s) == [s[0]] + Escape(s[1..]);
        assert Escape(s)[1..] == Escape(s[1..]);
      }
    }
  }

  /** Reads a quoted cell from the text after its opening quote: a doubled
      quote stands for one quote and a single quote closes the cell. Gives the
      cell text and what follows the closing quote, or None if the text ends
      inside the cell. */
  function ParseQuotedBody(s: string): (r: Option<(string, string)>)
    ensures r.Some? ==> |r.value.1| < |s|
  {
    if s == [] then None
    else if s[0] == '"' then
      if |s| >= 2 && s[1] == '"' then
        match ParseQuotedBody(s[2..])
        case None => None
        case Some(p) => Some(("\"" + p.0, p.1))
      else Some(([], s[1..]))
    else
      match ParseQuotedBody(s[1..])
      case None => None
      case Some(p) => Some(([s[0]] + p.0, p.1))
  }

  /** Reads one quoted cell from the front of s. */
  function ParseCell(s: string): (r: Option<(string, string)>)
    ensures r.Some? ==> |r.value.1| < |s|
  {
    if s != [] && s[0] == '"' then ParseQuotedBody(s[1..]) else None
  }

  lemma {:induction false} QuotedBodyRoundTrip(x: string, rest: string)
    requires rest == [] || rest[0] != '"'
    ensures ParseQuotedBody(Escape(x) + ("\"" + rest)) == Some((x, rest))
  {
    var t := "\"" + rest;
    if x == [] {
      assert Escape(x) + t == t;
      assert t[1..] == rest;
    } else {
      QuotedBodyRoundTrip(x[1..], rest);
      var tail := Escape(x[1..]) + t;
      var head := if x[0] == '"' then "\"\"" else [x[0]];
      assert Escape(x) == head + Escape(x[1..]);
      assert Escape(x) + t == head + tail;
      if x[0] == '"' {
        ParseDoubledQuote(tail);
      } else {
        ParsePlainChar(x[0], tail);
      }
      assert [x[0]] + x[1..] == x;
    }
  }

  /** A doubled quote in a cell body reads as one quote. */
  lemma ParseDoubledQuote(tail: string)
    ensures ParseQuotedBody("\"\"" + tail) ==
            match ParseQuotedBody(tail)
            case None => None
            case Some(p) => Some(("\"" + p.0, p.1))
  {
    assert ("\"\"" + tail)[2..] == tail;
  }

  /** Any other character of a cell body reads as itself. */
  lemma ParsePlainChar(c: char, tail: string)
    requires c != '"'
    ensures ParseQuotedBody([c] + tail) ==
            match ParseQuotedBody(tail)
            case None => None
            case Some(p) => Some(([c] + p.0, p.1))
  {
    assert ([c] + tail)[1..] == tail;
  }

  /** Reading a written cell gives back its text and leaves what follows it,
      as long as that does not start with a quote. */
  lemma CellRoundTrip(x: string, rest: string)
    requires rest == [] || rest[0] != '"'
    ensures ParseCell(Quote(x) + rest) == Some((x, rest))
  {
    assert (Quote(x) + rest)[1..] == Escape(x) + ("\"" + rest);
    QuotedBodyRoundTrip(x, rest);
  }

  // ---------------------------------------------------------------------------
  // One line of cells

  /** `row.map(cell => quote(cell)).join(';')`. */
  function RecordLine(cells: seq<string>): string {
    Join(MapStrings(cells, Quote), ";")
  }

  /** Reads quoted cells separated by ';' up to the end of the text or to a
      character that is not ';' after a cell. */
  function ParseRecord(s: string): (r: Option<(seq<string>, string)>)
    ensures r.Some? ==> |r.value.1| < |s|
    decreases |s|
  {
    match ParseCell(s)
    case None => None
    case Some(p) =>
      var (cell, rest) := p;
      if rest != [] && rest[0] == ';' then
        match ParseRecord(rest[1..])
        case None => None
        case Some(q) => Some(([cell] + q.0, q.1))
      else Some(([cell], rest))
  }

  lemma RecordLineUnfold(cells: seq<string>)
    requires |cells| >= 2
    ensures RecordLine(cells) == Quote(cells[0]) + ";" + RecordLine(cells[1..])
  {
    assert MapStrings(cells, Quote)[1..] == MapStrings(cells[1..], Quote);
  }

  /** Reading a written line gives back its cells and stops at the LF (or the
      end of the text) after it. */
  lemma {:induction false} RecordRoundTrip(cells: seq<string>, rest: string)
    requires |cells| >= 1
    requires rest == [] || rest[0] == '\n'
    ensures ParseRecord(RecordLine(cells) + rest) == Some((cells, rest))
  {
    if |cells| == 1 {
      LastCellRoundTrip(cells, rest);
    } else {
      RecordRoundTrip(cells[1..], rest);
      NextCellRoundTrip(cells, rest);
    }
  }

  lemma LastCellRoundTrip(cells: seq<string>, rest: string)
    requires |cells| == 1
    requires rest == [] || rest[0] == '\n'
    ensures ParseRecord(RecordLine(cells) + rest) == Some((cells, rest))
  {
    RecordLineSingle(cells);
    CellRoundTrip(cells[0], rest);
    ParseRecordLast(RecordLine(cells) + rest, cells[0], rest);
    assert [cells[0]] == cells;
  }

  lemma NextCellRoundTrip(cells: seq<string>, rest: string)
    requires |cells| >= 2
    requires ParseRecord(RecordLine(cells[1..]) + rest) == Some((cells[1..], rest))
    ensures ParseRecord(RecordLine(cells) + rest) == Some((cells, rest))
  {
    var tail := RecordLine(cells[1..]) + rest;
    RecordLineSplit(cells, rest);
    CellRoundTrip(cells[0], ";" + tail);
    ParseRecordNext(RecordLine(cells) + rest, cells[0], tail, cells[1..], rest);
    assert [cells[0]] + cells[1..] == cells;
  }

  lemma RecordLineSingle(cells: seq<string>)
    requires |cells| == 1
    ensures RecordLine(cells) == Quote(cells[0])
  {
  }

  lemma RecordLineSplit(cells: seq<string>, rest: string)
    requires |cells| >= 2
    ensures RecordLine(cells) + rest == Quote(cells[0]) + (";" + (RecordLine(cells[1..]) + rest))
  {
    RecordLineUnfold(cells);
  }

  lemma ParseRecordLast(s: string, cell: string, rest: string)
    requires ParseCell(s) == Some((cell, rest))
    requires rest == [] || rest[0] != ';'
    ensures ParseRecord(s) == Some(([cell], rest))
  {
  }

  lemma ParseRecordNext(s: string, cell: string, tail: string, cells: seq<string>, rest: string)
    requires ParseCell(s) == Some((cell, ";" + tail))
    requires ParseRecord(tail) == Some((cells, rest))
    ensures ParseRecord(s) == Some(([cell] + cells, rest))
  {
    assert (";" + tail)[1..] == tail;
  }

  // ---------------------------------------------------------------------------
  // Lines, the header and the document

  function RecordLines(rows: seq<seq<string>>): (r: seq<string>)
    ensures |r| == |rows|
    ensures forall i :: 0 <= i < |rows| ==> r[i] == RecordLine(rows[i])
  {
    seq(|rows|, i requires 0 <= i < |rows| => RecordLine(rows[i]))
  }

  /** Reads LF-separated lines of quoted cells up to the end of the text. */
  function ParseRecords(s: string): (r: Option<seq<seq<string>>>)
    decreases |s|
  {
    match ParseRecord(s)
    case None => None
    case Some(p) =>
      var (cells, rest) := p;
      if rest == [] then Some([cells])
      else if rest[0] == '\n' then
        match ParseRecords(rest[1..])
        case None => None
        case Some(more) => Some([cells] + more)
      else None
  }

  lemma JoinUnfold(xs: seq<string>, sep: string)
    requires |xs| >= 2
    ensures Join(xs, sep) == xs[0] + sep + Join(xs[1..], sep)
  {
  }

  /** Reading written lines gives back every row of cells. */
  lemma {:induction false} RecordsRoundTrip(rows: seq<seq<string>>)
    requires |rows| >= 1
    requires forall i :: 0 <= i < |rows| ==> |rows[i]| >= 1
    ensures ParseRecords(Join(RecordLines(rows), "\n")) == Some(rows)
  {
    var lines := RecordLines(rows);
    if |rows| == 1 {
      LinesSingle(rows);
      RecordRoundTrip(rows[0], []);
      assert [rows[0]] == rows;
    } else {
      var tail := Join(RecordLines(rows[1..]), "\n");
      var s := Join(lines, "\n");
      LinesSplit(rows);
      RecordRoundTrip(rows[0], "\n" + tail);
      RecordsRoundTrip(rows[1..]);
      ParseRecordsNext(s, rows[0], tail, rows[1..]);
      assert [rows[0]] + rows[1..] == rows;
    }
  }

  lemma LinesSingle(rows: seq<seq<string>>)
    requires |rows| == 1
    ensures Join(RecordLines(rows), "\n") == RecordLine(rows[0]) + []
  {
  }

  lemma LinesSplit(rows: seq<seq<string>>)
    requires |rows| >= 2
    ensures Join(RecordLines(rows), "\n") == RecordLine(rows[0]) + ("\n" + Join(RecordLines(rows[1..]), "\n"))
  {
    var lines := RecordLines(rows);
    JoinUnfold(lines, "\n");
    assert lines[1..] == RecordLines(rows[1..]);
  }

  lemma ParseRecordsNext(s: string, cells: seq<string>, tail: string, more: seq<seq<string>>)
    requires ParseRecord(s) == Some((cells, "\n" + tail))
    requires ParseRecords(tail) == Some(more)
    ensures ParseRecords(s) == Some([cells] + more)
  {
    assert ("\n" + tail)[1..] == tail;
  }

  /** Index of the first occurrence of c in s. */
  function IndexOf(s: string, c: char): (k: Option<nat>)
    ensures k.Some? ==> k.value < |s| && s[k.value] == c && forall i :: 0 <= i < k.value ==> s[i] != c
    ensures k.None? ==> forall i :: 0 <= i < |s| ==> s[i] != c
  {
    if s == [] then None
    else if s[0] == c then Some(0)
    else match IndexOf(s[1..], c)
      case None => None
      case Some(k) => Some(k + 1)
  }

  lemma IndexOfAfter(a: string, c: char, b: string)
    requires forall i :: 0 <= i < |a| ==> a[i] != c
    ensures IndexOf(a + [c] + b, c) == Some(|a|)
  {
    var k := IndexOf(a + [c] + b, c);
    assert (a + [c] + b)[|a|] == c;
  }

  /** `s.split(c)`: the pieces between the occurrences of c. */
  function Split(s: string, c: char): (r: seq<string>)
    ensures |r| >= 1
    decreases |s|
  {
    match IndexOf(s, c)
    case None => [s]
    case Some(i) => [s[..i]] + Split(s[i + 1..], c)
  }

  predicate Excludes(s: string, c: char) { forall i :: 0 <= i < |s| ==> s[i] != c }

  /** Splitting at the separator undoes joining with it, when no piece holds the separator. */
  lemma {:induction false} SplitJoin(xs: seq<string>, c: char)
    requires |xs| >= 1
    requires forall j :: 0 <= j < |xs| ==> Excludes(xs[j], c)
    ensures Split(Join(xs, [c]), c) == xs
  {
    if |xs| > 1 {
      JoinUnfold(xs, [c]);
      var tail := Join(xs[1..], [c]);
      IndexOfAfter(xs[0], c, tail);
      var s := xs[0] + [c] + tail;
      assert s[..|xs[0]|] == xs[0];
      assert s[|xs[0]| + 1..] == tail;
      SplitJoin(xs[1..], c);
      assert [xs[0]] + xs[1..] == xs;
    }
  }

  /** Joining pieces that all lack c gives a text that lacks c. */
  lemma {:induction false} JoinExcludes(xs: seq<string>, sep: string, c: char)
    requires Excludes(sep, c)
    requires forall j :: 0 <= j < |xs| ==> Excludes(xs[j], c)
    ensures Excludes(Join(xs, sep), c)
  {
    if |xs| > 1 {
      JoinExcludes(xs[1..], sep, c);
      var t := Join(xs[1..], sep);
      assert Join(xs, sep) == xs[0] + sep + t;
      assert forall i :: 0 <= i < |xs[0] + sep + t| ==>
        (xs[0] + sep + t)[i] == if i < |xs[0]| then xs[0][i]
                                else if i < |xs[0]| + |sep| then sep[i - |xs[0]|]
                                else t[i - |xs[0]| - |sep|];
    }
  }

  /** The exported text: the byte-order mark, then the header line and the
      data lines joined by LF, with no line break after the last line. */
  function CsvDocument(header: seq<string>, rows: seq<seq<string>>): string {
    [Bom] + Join([Join(header, ";")] + RecordLines(rows), "\n")
  }

  /** Reads an exported text: the mark, the header line split at ';', then the
      data lines. */
  function ParseDocument(s: string): Option<(seq<string>, seq<seq<string>>)> {
    if s == [] || s[0] != Bom then None
    else
      var body := s[1..];
      match IndexOf(body, '\n')
      case None => Some((Split(body, ';'), []))
      case Some(i) =>
        match ParseRecords(body[i + 1..])
        case None => None
        case Some(rows) => Some((Split(body[..i], ';'), rows))
  }

  /** Header names fit the unquoted header line: non-empty list, and no name
      holds the separator or a line break. */
  predicate PlainHeader(header: seq<string>) {
    |header| >= 1 && forall j :: 0 <= j < |header| ==> Excludes(header[j], ';') && Excludes(header[j], '\n')
  }

  /** Reading an exported text gives back the header names and every cell of
      every row, whatever characters the cells hold (quotes, ';', line breaks). */
  lemma DocumentRoundTrip(header: seq<string>, rows: seq<seq<string>>)
    requires PlainHeader(header)
    requires forall i :: 0 <= i < |rows| ==> |rows[i]| >= 1
    ensures ParseDocument(CsvDocument(header, rows)) == Some((header, rows))
  {
    var h := Join(header, ";");
    JoinExcludes(header, ";", '\n');
    SplitJoin(header, ';');
    var doc := CsvDocument(header, rows);
    assert doc[1..] == Join([h] + RecordLines(rows), "\n");
    if rows == [] {
      assert [h] + RecordLines(rows) == [h];
    } else {
      var lines := [h] + RecordLines(rows);
      JoinUnfold(lines, "\n");
      assert lines[1..] == RecordLines(rows);
      var tail := Join(RecordLines(rows), "\n");
      assert doc[1..] == h + ['\n'] + tail;
      IndexOfAfter(h, '\n', tail);
      assert doc[1..][..|h|] == h;
      assert doc[1..][|h| + 1..] == tail;
      RecordsRoundTrip(rows);
    }
  }
}
