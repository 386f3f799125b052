/** COPY in text format, tab-separated: rows to lines and back (protocol/postgres/copy.go). */
module CopyText {
  import opened Options
  import opened Text

  type Cell = Option<string>

  // A NULL marker that comes from COPY's options, and the marker in force without any.
  const DEFAULT_NULL := "\\N"
  const TAB := '\t'
  const END_MARK := "\\."

  // -- Writing ---------------------------------------------------------------------------------

  function EscapeChar(c: char): string {
    if c == '\\' then "\\\\"
    else if c == '\t' then "\\t"
    else if c == '\n' then "\\n"
    else if c == '\r' then "\\r"
    else [c]
  }

  function Escape(s: string): string { if s == "" then "" else EscapeChar(s[0]) + Escape(s[1..]) }

  function CellText(marker: string, c: Cell): string { if c.None? then marker else c.value }

  function Escaped(fields: seq<string>): seq<string> {
    seq(|fields|, i requires 0 <= i < |fields| => Escape(fields[i]))
  }

  function Texts(marker: string, row: seq<Cell>): seq<string> {
    seq(|row|, i requires 0 <= i < |row| => CellText(marker, row[i]))
  }

  // One row, without its newline.
  function Line(marker: string, row: seq<Cell>): string { Join(Escaped(Texts(marker, row)), [TAB]) }

  function Write(marker: string, rows: seq<seq<Cell>>): string {
    if rows == [] then "" else Line(marker, rows[0]) + "\n" + Write(marker, rows[1..])
  }

  // -- Reading ---------------------------------------------------------------------------------

  function UnescapeLetter(c: char): char {
    if c == 't' then '\t' else if c == 'n' then '\n' else if c == 'r' then '\r' else c
  }

  function Unescape(s: string): string
    decreases |s|
  {
    if s == "" then ""
    else if s[0] == '\\' && |s| > 1 then [UnescapeLetter(s[1])] + Unescape(s[2..])
    else [s[0]] + Unescape(s[1..])
  }

  // strings.Split at a one-character separator.
  function SplitOn(s: string, sep: char): (r: seq<string>)
    ensures r != []
  {
    if s == "" then [""]
    else
      var r := SplitOn(s[1..], sep);
      if s[0] == sep then [""] + r else [[s[0]] + r[0]] + r[1..]
  }

  function TrimNewlines(s: string): string {
    if s != "" && s[|s| - 1] == '\n' then TrimNewlines(s[..|s| - 1]) else s
  }

  function ReadCell(marker: string, field: string): Cell { if field == marker then None else Some(Unescape(field)) }

  function ReadCells(marker: string, fields: seq<string>): seq<Cell> {
    seq(|fields|, i requires 0 <= i < |fields| => ReadCell(marker, fields[i]))
  }

  function ParseLines(marker: string, n: nat, lines: seq<string>): Option<seq<seq<Cell>>>
    decreases |lines|
  {
    if lines == [] || lines[0] == END_MARK then Some([])
    else
      var fields := SplitOn(lines[0], TAB);
      var rest := ParseLines(marker, n, lines[1..]);
      if |fields| != n || rest.None? then None else Some([ReadCells(marker, fields)] + rest.value)
  }

  // The lines before the first end mark are read, one row each, when all have n fields, and nothing at
  // all when one has not; what comes after the mark does not count.
  lemma {:induction false} ReadToMark(marker: string, n: nat, lines: seq<string>, e: nat)
    requires e <= |lines| && (e < |lines| ==> lines[e] == "\\.") && forall i | 0 <= i < e :: lines[i] != "\\."
    ensures var r := ParseLines(marker, n, lines);
            && (r.Some? <==> forall i | 0 <= i < e :: |SplitOn(lines[i], TAB)| == n)
            && (r.Some? ==> |r.value| == e)
            && (r.Some? ==> forall i | 0 <= i < e :: r.value[i] == ReadCells(marker, SplitOn(lines[i], TAB)))
    decreases |lines|
  {
    if e > 0 {
      var rest := lines[1..];
      assert forall i | 0 <= i < e - 1 :: rest[i] == lines[i + 1];
      ReadToMark(marker, n, rest, e - 1);
      assert forall i | 0 < i < e :: lines[i] == rest[i - 1];
    }
  }

  // The rows of n cells, or nothing when a line has another number of fields.
  function Parse(marker: string, n: nat, data: string): Option<seq<seq<Cell>>> {
    var text := TrimNewlines(data);
    if text == "" then Some([]) else ParseLines(marker, n, SplitOn(text, '\n'))
  }

  // -- Cells -----------------------------------------------------------------------------------

  lemma {:induction false} EscapeRoundTrip(s: string)
    ensures Unescape(Escape(s)) == s
    decreases |s|
  {
    if s != "" {
      EscapeRoundTrip(s[1..]);
      UnescapeOne(s[0], Escape(s[1..]));
      assert s == [s[0]] + s[1..];
    }
  }

  lemma UnescapeOne(c: char, rest: string)
    requires rest != "" || EscapeChar(c) != "\\"
    ensures Unescape(EscapeChar(c) + rest) == [c] + Unescape(rest)
  {
    var e := EscapeChar(c);
    var s := e + rest;
    if |e| == 2 {
      assert s[0] == e[0] && s[1] == e[1] && s[2..] == rest;
    } else {
      assert s[0] == c && s[1..] == rest;
    }
  }

  // Nothing in the escaped form is a separator, and a backslash at its start is followed by one of
  // four letters.
  lemma {:induction false} EscapedIsClean(s: string)
    ensures forall c <- Escape(s) :: c != '\t' && c != '\n' && c != '\r'
    ensures Escape(s) == "" <==> s == ""
    ensures |Escape(s)| >= 2 && Escape(s)[0] == '\\' ==> Escape(s)[1] in {'\\', 't', 'n', 'r'}
    decreases |s|
  {
    if s != "" {
      EscapedIsClean(s[1..]);
      var e := Escape(s);
      assert e[0] == EscapeChar(s[0])[0];
      if s[0] in {'\\', '\t', '\n', '\r'} { assert e[1] == EscapeChar(s[0])[1]; }
    }
  }

  // What comes back for a cell: NULL when its escaped text is the marker, else its text, which for
  // a NULL is the marker's.
  function Returned(marker: string, c: Cell): Cell {
    var text := CellText(marker, c);
    if Escape(text) == marker then None else Some(text)
  }

  function ReturnedRow(marker: string, row: seq<Cell>): seq<Cell> {
    seq(|row|, i requires 0 <= i < |row| => Returned(marker, row[i]))
  }

  function ReturnedRows(marker: string, rows: seq<seq<Cell>>): seq<seq<Cell>> {
    seq(|rows|, i requires 0 <= i < |rows| => ReturnedRow(marker, rows[i]))
  }

  lemma CellsComeBack(marker: string, row: seq<Cell>)
    ensures ReadCells(marker, Escaped(Texts(marker, row))) == ReturnedRow(marker, row)
  {
    forall i | 0 <= i < |row|
      ensures ReadCell(marker, Escape(CellText(marker, row[i]))) == Returned(marker, row[i])
    {
      EscapeRoundTrip(CellText(marker, row[i]));
    }
  }

  // -- Splitting --------------------------------------------------------------------------------

  predicate Free(s: string, sep: char) { forall c <- s :: c != sep }

  lemma FreeTail(p: string, sep: char)
    ensures p != "" && Free(p, sep) ==> Free(p[1..], sep)
  {
    if p != "" { assert forall c <- p[1..] :: c in p; }
  }

  lemma {:induction false} SplitPast(p: string, sep: char, rest: string)
    requires Free(p, sep)
    ensures SplitOn(p + [sep] + rest, sep) == [p] + SplitOn(rest, sep)
    decreases |p|
  {
    var s := p + [sep] + rest;
    if p == "" {
      assert s[1..] == rest;
    } else {
      assert s[1..] == p[1..] + [sep] + rest && s[0] == p[0] && p[0] in p;
      FreeTail(p, sep);
      SplitPast(p[1..], sep, rest);
      assert [p[0]] + p[1..] == p;
    }
  }

  lemma {:induction false} SplitOnly(p: string, sep: char)
    requires Free(p, sep)
    ensures SplitOn(p, sep) == [p]
    decreases |p|
  {
    if p != "" {
      assert p[0] in p;
      FreeTail(p, sep);
      SplitOnly(p[1..], sep);
      assert [p[0]] + p[1..] == p;
    }
  }

  lemma JoinParts(parts: seq<string>, sep: string) returns (rest: string)
    requires |parts| > 1
    ensures rest == Join(parts[1..], sep) && Join(parts, sep) == parts[0] + sep + rest
  {
    rest := Join(parts[1..], sep);
  }

  lemma {:induction false} SplitJoined(parts: seq<string>, sep: char)
    requires parts != [] && forall p <- parts :: Free(p, sep)
    ensures SplitOn(Join(parts, [sep]), sep) == parts
    decreases |parts|
  {
    if |parts| == 1 {
      SplitOnly(parts[0], sep);
    } else {
      SplitJoined(parts[1..], sep);
      var rest := JoinParts(parts, [sep]);
      SplitPast(parts[0], sep, rest);
      assert parts == [parts[0]] + parts[1..];
    }
  }

  lemma FreeConcat(p: string, q: string, r: string, c: char)
    requires Free(p, c) && Free(q, c) && Free(r, c)
    ensures Free(p + q + r, c)
  {
    forall x | x in p + q + r ensures x != c { assert x in p || x in q || x in r; }
  }

  lemma {:induction false} FreeJoin(parts: seq<string>, sep: string, c: char)
    requires Free(sep, c) && forall p <- parts :: Free(p, c)
    ensures Free(Join(parts, sep), c)
    decreases |parts|
  {
    if |parts| == 1 {
      assert parts[0] in parts;
    } else if |parts| > 1 {
      FreeJoin(parts[1..], sep, c);
      FreeConcat(parts[0], sep, Join(parts[1..], sep), c);
    }
  }

  // -- Lines ------------------------------------------------------------------------------------

  lemma EscapedAreClean(fields: seq<string>)
    ensures forall e <- Escaped(fields) :: Free(e, TAB) && Free(e, '\n') && e != END_MARK
  {
    forall i | 0 <= i < |fields|
      ensures Free(Escape(fields[i]), TAB) && Free(Escape(fields[i]), '\n') && Escape(fields[i]) != END_MARK
    {
      EscapedIsClean(fields[i]);
    }
  }

  // A line holds no newline, and is not the end mark; split at tabs, it is its fields.
  lemma LineIsClean(marker: string, row: seq<Cell>)
    ensures Free(Line(marker, row), '\n') && Line(marker, row) != END_MARK
    ensures row != [] ==> SplitOn(Line(marker, row), TAB) == Escaped(Texts(marker, row))
    ensures |row| >= 2 ==> Line(marker, row) != ""
  {
    var fields := Escaped(Texts(marker, row));
    EscapedAreClean(Texts(marker, row));
    FreeJoin(fields, [TAB], '\n');
    if row != [] { SplitJoined(fields, TAB); }
    if |row| == 1 { assert fields[0] in fields; }
    if |row| >= 2 {
      var line := Line(marker, row);
      assert line[|fields[0]|] == TAB;
    }
  }

  function Lines(marker: string, rows: seq<seq<Cell>>): seq<string> {
    seq(|rows|, i requires 0 <= i < |rows| => Line(marker, rows[i]))
  }

  // What trimming the end of the data loses: rows at the end whose line is empty.
  function Kept(marker: string, rows: seq<seq<Cell>>): seq<seq<Cell>> {
    if rows != [] && Line(marker, rows[|rows| - 1]) == "" then Kept(marker, rows[..|rows| - 1]) else rows
  }

  lemma WriteFirst(marker: string, rows: seq<seq<Cell>>)
    requires rows != []
    ensures Write(marker, rows) == Line(marker, rows[0]) + "\n" + Write(marker, rows[1..])
  {
  }

  // The data seen from its last row, and as lines joined.
  lemma {:induction false} WriteLast(marker: string, rows: seq<seq<Cell>>)
    requires rows != []
    ensures Write(marker, rows) == Write(marker, rows[..|rows| - 1]) + Line(marker, rows[|rows| - 1]) + "\n"
    decreases |rows|
  {
    if |rows| > 1 {
      WriteLast(marker, rows[1..]);
      WriteBothEnds(marker, rows);
    } else {
      WriteFirst(marker, rows);
      assert rows[..0] == [] && rows[1..] == [];
    }
  }

  lemma {:induction false} WriteBothEnds(marker: string, rows: seq<seq<Cell>>)
    requires |rows| > 1
    requires Write(marker, rows[1..]) ==
      Write(marker, rows[1..][..|rows| - 2]) + Line(marker, rows[1..][|rows| - 2]) + "\n"
    ensures Write(marker, rows) == Write(marker, rows[..|rows| - 1]) + Line(marker, rows[|rows| - 1]) + "\n"
  {
    var init, last := rows[..|rows| - 1], rows[|rows| - 1];
    WriteFirst(marker, rows);
    WriteFirst(marker, init);
    assert init[1..] == rows[1..][..|rows| - 2] && rows[1..][|rows| - 2] == last && init[0] == rows[0];
    Regrouped(Line(marker, rows[0]) + "\n", Write(marker, init[1..]), Line(marker, last) + "\n");
  }

  lemma Regrouped(a: string, b: string, c: string)
    ensures a + (b + c) == (a + b) + c
  {
  }

  lemma {:induction false} WriteJoins(marker: string, rows: seq<seq<Cell>>)
    requires rows != []
    ensures Write(marker, rows) == Join(Lines(marker, rows), "\n") + "\n"
    decreases |rows|
  {
    WriteFirst(marker, rows);
    FirstOfLines(marker, rows);
    if |rows| > 1 {
      WriteJoins(marker, rows[1..]);
      var rest := JoinParts(Lines(marker, rows), "\n");
    } else {
      assert rows[1..] == [];
    }
  }

  lemma TrimsToLine(before: string, line: string)
    requires Free(line, '\n')
    ensures TrimNewlines(before + line + "\n") == if line == "" then TrimNewlines(before) else before + line
  {
    var text := before + line;
    var data := text + "\n";
    assert data[..|data| - 1] == text && data[|data| - 1] == '\n';
    if line == "" {
      assert text == before;
    } else {
      assert text[|text| - 1] == line[|line| - 1] && line[|line| - 1] in line;
    }
  }

  // The data trimmed is the lines of the rows kept.
  lemma {:induction false} TrimmedData(marker: string, rows: seq<seq<Cell>>) returns (kept: seq<seq<Cell>>)
    ensures kept == Kept(marker, rows)
    ensures TrimNewlines(Write(marker, rows)) == Join(Lines(marker, kept), "\n")
    ensures kept != [] ==> Line(marker, kept[|kept| - 1]) != ""
    decreases |rows|
  {
    kept := rows;
    if rows != [] {
      var line := Line(marker, rows[|rows| - 1]);
      LineIsClean(marker, rows[|rows| - 1]);
      WriteLast(marker, rows);
      WriteJoins(marker, rows);
      TrimsToLine(Write(marker, rows[..|rows| - 1]), line);
      if line == "" {
        kept := TrimmedData(marker, rows[..|rows| - 1]);
      } else {
        DropNewline(Write(marker, rows[..|rows| - 1]) + line, Join(Lines(marker, rows), "\n"));
      }
    }
  }

  lemma DropNewline(a: string, b: string)
    requires a + "\n" == b + "\n"
    ensures a == b
  {
    assert (a + "\n")[..|a|] == a && (b + "\n")[..|b|] == b;
  }

  lemma {:induction false} JoinNotEmpty(lines: seq<string>)
    requires lines != [] && lines[|lines| - 1] != ""
    ensures Join(lines, "\n") != ""
  {
  }

  lemma OneLine(marker: string, n: nat, line: string, fields: seq<string>, rest: seq<string>)
    requires line != END_MARK && SplitOn(line, TAB) == fields && |fields| == n
    requires ParseLines(marker, n, rest).Some?
    ensures ParseLines(marker, n, [line] + rest)
         == Some([ReadCells(marker, fields)] + ParseLines(marker, n, rest).value)
  {
    assert ([line] + rest)[1..] == rest;
  }

  lemma {:induction false} LinesComeBack(marker: string, n: nat, rows: seq<seq<Cell>>)
    requires n > 0 && forall row <- rows :: |row| == n
    ensures ParseLines(marker, n, Lines(marker, rows)) == Some(ReturnedRows(marker, rows))
    decreases |rows|
  {
    if rows != [] {
      assert rows[0] in rows;
      LineIsClean(marker, rows[0]);
      CellsComeBack(marker, rows[0]);
      LinesComeBack(marker, n, rows[1..]);
      FirstOfLines(marker, rows);
      OneLine(marker, n, Line(marker, rows[0]), Escaped(Texts(marker, rows[0])), Lines(marker, rows[1..]));
    } else {
      assert Lines(marker, rows) == [] && ReturnedRows(marker, rows) == [];
    }
  }

  lemma FirstOfLines(marker: string, rows: seq<seq<Cell>>)
    requires rows != []
    ensures Lines(marker, rows) == [Line(marker, rows[0])] + Lines(marker, rows[1..])
    ensures ReturnedRows(marker, rows) == [ReturnedRow(marker, rows[0])] + ReturnedRows(marker, rows[1..])
  {
  }

  lemma {:induction false} KeptRows(marker: string, n: nat, rows: seq<seq<Cell>>)
    requires forall row <- rows :: |row| == n
    ensures var kept := Kept(marker, rows);
            && kept <= rows && (n == 0 ==> kept == []) && (n >= 2 ==> kept == rows)
            && (kept == rows <==> rows == [] || Line(marker, rows[|rows| - 1]) != "")
    decreases |rows|
  {
    if rows != [] {
      assert rows[|rows| - 1] in rows;
      LineIsClean(marker, rows[|rows| - 1]);
      KeptRows(marker, n, rows[..|rows| - 1]);
      assert rows[..|rows| - 1] <= rows;
    }
  }

  lemma LinesSplitBack(marker: string, rows: seq<seq<Cell>>) returns (lines: seq<string>)
    requires rows != [] && Line(marker, rows[|rows| - 1]) != ""
    ensures lines == Lines(marker, rows) && Join(lines, "\n") != "" && SplitOn(Join(lines, "\n"), '\n') == lines
  {
    lines := Lines(marker, rows);
    forall i | 0 <= i < |rows| ensures Free(lines[i], '\n') { LineIsClean(marker, rows[i]); }
    SplitJoined(lines, '\n');
    JoinNotEmpty(lines);
  }

  // What was written, read again: each cell as it comes back, less the empty lines at the end.
  lemma WrittenComesBack(marker: string, n: nat, rows: seq<seq<Cell>>)
    requires forall row <- rows :: |row| == n
    ensures Parse(marker, n, Write(marker, rows)) == Some(ReturnedRows(marker, Kept(marker, rows)))
  {
    var kept := TrimmedData(marker, rows);
    KeptRows(marker, n, rows);
    if kept != [] {
      var lines := LinesSplitBack(marker, kept);
      assert forall row <- kept :: row in rows;
      LinesComeBack(marker, n, kept);
      LinesParse(marker, n, Write(marker, rows), Join(lines, "\n"), lines);
    } else {
      assert Join(Lines(marker, kept), "\n") == "";
      assert ReturnedRows(marker, kept) == [];
    }
  }

  lemma LinesParse(marker: string, n: nat, data: string, text: string, lines: seq<string>)
    requires TrimNewlines(data) == text && text != "" && SplitOn(text, '\n') == lines
    ensures Parse(marker, n, data) == ParseLines(marker, n, lines)
  {
  }

  // A cell survives: a string that is not escaped to the marker, or a NULL whose marker needs no
  // escaping.
  predicate Survives(marker: string, c: Cell) { c.None? <==> Escape(CellText(marker, c)) == marker }

  // COPY out and in again gives the same rows exactly when every cell survives and the last line
  // is not empty.
  lemma RoundTripExactly(marker: string, n: nat, rows: seq<seq<Cell>>)
    requires forall row <- rows :: |row| == n
    ensures Parse(marker, n, Write(marker, rows)) == Some(rows) <==>
        (&& (rows == [] || Line(marker, rows[|rows| - 1]) != "")
         && forall row <- rows, c <- row :: Survives(marker, c))
  {
    WrittenComesBack(marker, n, rows);
    KeptRows(marker, n, rows);
    if Kept(marker, rows) == rows {
      RowsSurvive(marker, rows);
    }
  }

  lemma RowsSurvive(marker: string, rows: seq<seq<Cell>>)
    ensures ReturnedRows(marker, rows) == rows <==> forall row <- rows, c <- row :: Survives(marker, c)
  {
    forall row: seq<Cell> ensures ReturnedRow(marker, row) == row <==> forall c <- row :: Survives(marker, c) {
      CellsSurvive(marker, row);
    }
    if ReturnedRows(marker, rows) == rows {
      forall i | 0 <= i < |rows| ensures ReturnedRow(marker, rows[i]) == rows[i] {
        assert ReturnedRows(marker, rows)[i] == rows[i];
      }
    }
    if forall row <- rows, c <- row :: Survives(marker, c) {
      forall i | 0 <= i < |rows| ensures ReturnedRow(marker, rows[i]) == rows[i] {
        assert rows[i] in rows;
      }
    }
  }

  lemma CellsSurvive(marker: string, row: seq<Cell>)
    ensures ReturnedRow(marker, row) == row <==> forall c <- row :: Survives(marker, c)
  {
    if ReturnedRow(marker, row) == row {
      forall i | 0 <= i < |row| ensures Survives(marker, row[i]) {
        assert ReturnedRow(marker, row)[i] == row[i];
      }
    }
    if forall c <- row :: Survives(marker, c) {
      forall i | 0 <= i < |row| ensures Returned(marker, row[i]) == row[i] { assert row[i] in row; }
    }
  }

  // With the marker in force without options every string survives, "\N" and "\." among them, and
  // no NULL does: its marker is escaped like any text, and read back as the string "\N".
  lemma DefaultMarker(c: Cell)
    ensures Survives(DEFAULT_NULL, c) <==> c.Some?
    ensures Returned(DEFAULT_NULL, None) == Some(DEFAULT_NULL)
  {
    var text := CellText(DEFAULT_NULL, c);
    EscapedIsClean(text);
    assert DEFAULT_NULL[1..] == "N" && "N"[1..] == "";
    assert Escape("N") == "N" + Escape("");
    assert Escape(DEFAULT_NULL) == "\\\\" + Escape("N");
    assert |Escape(DEFAULT_NULL)| == 3 && DEFAULT_NULL[1] == 'N';
  }

  // Rows of two columns or more and no NULL always come back.
  lemma StringsRoundTrip(n: nat, rows: seq<seq<Cell>>)
    requires n >= 2 && forall row <- rows :: |row| == n && forall c <- row :: c.Some?
    ensures Parse(DEFAULT_NULL, n, Write(DEFAULT_NULL, rows)) == Some(rows)
  {
    forall row, c | row in rows && c in row ensures Survives(DEFAULT_NULL, c) { DefaultMarker(c); }
    if rows != [] { assert rows[|rows| - 1] in rows; LineIsClean(DEFAULT_NULL, rows[|rows| - 1]); }
    RoundTripExactly(DEFAULT_NULL, n, rows);
  }

  // -- The program's loops -----------------------------------------------------------------------

  method UnescapeLoop(s: string) returns (r: string)
    ensures r == Unescape(s)
  {
    if '\\' !in s {
      NothingToUnescape(s);
      return s;
    }
    r := "";
    var i := 0;
    while i < |s|
      invariant 0 <= i <= |s|
      invariant UnescapedTo(s, r, i)
    {
      UnescapeTurn(s, r, i);
      if s[i] == '\\' && i + 1 < |s| {
        r := r + [UnescapeLetter(s[i + 1])];
        i := i + 2;
      } else {
        r := r + [s[i]];
        i := i + 1;
      }
    }
    assert s[i..] == "";
  }

  ghost predicate UnescapedTo(s: string, r: string, i: nat) {
    i <= |s| && Unescape(s) == r + Unescape(s[i..])
  }

  lemma UnescapeTurn(s: string, r: string, i: nat)
    requires i < |s| && UnescapedTo(s, r, i)
    ensures if s[i] == '\\' && i + 1 < |s| then UnescapedTo(s, r + [UnescapeLetter(s[i + 1])], i + 2)
            else UnescapedTo(s, r + [s[i]], i + 1)
  {
    var t := s[i..];
    if t[0] == '\\' && |t| > 1 {
      assert t[2..] == s[i + 2..];
      MoreText(r, UnescapeLetter(t[1]), Unescape(t[2..]));
    } else {
      assert t[1..] == s[i + 1..];
      MoreText(r, t[0], Unescape(t[1..]));
    }
  }

  lemma MoreText(r: string, c: char, rest: string)
    ensures r + ([c] + rest) == (r + [c]) + rest
  {
  }

  lemma {:induction false} NothingToUnescape(s: string)
    requires '\\' !in s
    ensures Unescape(s) == s
    decreases |s|
  {
    if s != "" {
      NothingToUnescape(s[1..]);
      assert s == [s[0]] + s[1..];
    }
  }

  method WriteRow(marker: string, cells: seq<Cell>) returns (line: string)
    ensures line == Line(marker, cells) + "\n"
  {
    var esc := [];
    for i := 0 to |cells|
      invariant esc == Escaped(Texts(marker, cells[..i]))
    {
      esc := esc + [Escape(if cells[i].None? then marker else cells[i].value)];
    }
    assert cells[..|cells|] == cells;
    line := Join(esc, [TAB]) + "\n";
  }

  method ReadRow(marker: string, fields: seq<string>) returns (row: seq<Cell>)
    ensures row == ReadCells(marker, fields)
  {
    row := [];
    for j := 0 to |fields|
      invariant row == ReadCells(marker, fields[..j])
    {
      if fields[j] == marker {
        row := row + [None];
      } else {
        var text := UnescapeLoop(fields[j]);
        row := row + [Some(text)];
      }
    }
    assert fields[..|fields|] == fields;
  }

  method ParseCopyData(marker: string, numCols: nat, data: string) returns (rows: Option<seq<seq<Cell>>>)
    ensures rows == Parse(marker, numCols, data)
  {
    var text := TrimNewlines(data);
    if text == "" { return Some([]); }
    var lines := SplitOn(text, '\n');
    var read := [];
    assert lines[0..] == lines;
    NoneBefore(ParseLines(marker, numCols, lines));
    for i := 0 to |lines|
      invariant ParseLines(marker, numCols, lines) == Before(read, ParseLines(marker, numCols, lines[i..]))
    {
      ghost var rest := lines[i..];
      assert rest[0] == lines[i] && rest[1..] == lines[i + 1..];
      if lines[i] == END_MARK {
        assert read + [] == read;
        return Some(read);
      }
      var fields := SplitOn(lines[i], TAB);
      if |fields| != numCols { return None; }
      var row := ReadRow(marker, fields);
      MoreBefore(read, row, ParseLines(marker, numCols, rest[1..]));
      read := read + [row];
    }
    assert read + [] == read;
    rows := Some(read);
  }

  ghost function Before(read: seq<seq<Cell>>, rest: Option<seq<seq<Cell>>>): Option<seq<seq<Cell>>> {
    if rest.None? then None else Some(read + rest.value)
  }

  lemma NoneBefore(rest: Option<seq<seq<Cell>>>)
    ensures Before([], rest) == rest
  {
    if rest.Some? { assert [] + rest.value == rest.value; }
  }

  lemma MoreBefore(read: seq<seq<Cell>>, row: seq<Cell>, rest: Option<seq<seq<Cell>>>)
    ensures Before(read, Before([row], rest)) == Before(read + [row], rest)
  {
    if rest.Some? { assert read + ([row] + rest.value) == (read + [row]) + rest.value; }
  }
}
