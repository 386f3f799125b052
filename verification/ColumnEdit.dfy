/**
 Editing one column definition inside a CREATE TABLE (editColumn and parseColDef in
 protocol/postgres/alter.go).
 */
module ColumnEdit {
  import opened Options
  import opened Text
  import opened SqlScan
  import opened ColumnList

  type Edit = (string, string, string) -> string

  // -- Reading one definition ------------------------------------------------------------

  predicate HasPrefix(s: string, p: string) { |p| <= |s| && s[..|p|] == p }

  function TrimLeftQuotes(s: string): string {
    if s != "" && s[0] == '"' then TrimLeftQuotes(s[1..]) else s
  }

  const TABLE_KEYWORDS := ["CONSTRAINT ", "PRIMARY ", "UNIQUE ", "CHECK", "FOREIGN ", "EXCLUDE "]

  // A table constraint rather than a column.
  predicate IsTableConstraint(d: string) {
    var first := Upper(TrimLeftQuotes(d));
    exists kw <- TABLE_KEYWORDS :: HasPrefix(first, kw)
  }

  const STOP_WORDS: set<string> :=
    {"not", "null", "default", "primary", "unique", "check", "references", "collate", "generated", "as", "constraint"}

  // The end of the name d starts with, quoted or not.
  function NameEnd(d: string): (r: nat)
    requires d != ""
    ensures r <= |d|
  {
    if d[0] == '"' then
      var q := FindQuote(d, 1);
      if q < |d| then q + 1 else q
    else IdentEnd(d, 0)
  }

  function FindQuote(d: string, i: nat): (r: nat)
    requires i <= |d|
    ensures i <= r <= |d|
    decreases |d| - i
  {
    if i < |d| && d[i] != '"' then FindQuote(d, i + 1) else i
  }

  function IdentEnd(d: string, i: nat): (r: nat)
    requires i <= |d|
    ensures i <= r <= |d|
    decreases |d| - i
  {
    if i < |d| && (IsWordByte(d[i]) || d[i] == '.') then IdentEnd(d, i + 1) else i
  }

  // The end of the type: the first column-constraint keyword outside parentheses.
  function TypeEnd(rest: string, k: nat, depth: int): (r: nat)
    requires k <= |rest|
    ensures k <= r <= |rest|
    decreases |rest| - k
  {
    if k == |rest| then k
    else if rest[k] == '(' then TypeEnd(rest, k + 1, depth + 1)
    else if rest[k] == ')' then TypeEnd(rest, k + 1, depth - 1)
    else if depth == 0 && IsIdentStart(rest[k]) then
      var w := WordRun(rest, k + 1);
      if Lower(rest[k..w]) in STOP_WORDS then k else TypeEnd(rest, w, depth)
    else TypeEnd(rest, k + 1, depth)
  }

  function ParseColumn(d: string): (string, string, string)
    requires d != ""
  {
    var rest := TrimSpace(d[NameEnd(d)..]);
    var k := TypeEnd(rest, 0, 0);
    (d[..NameEnd(d)], TrimSpace(rest[..k]), TrimSpace(rest[k..]))
  }

  // Name, type and constraints; the name is empty when the definition is not a column.
  function ParseColDef(def: string): (string, string, string) {
    var d := TrimSpace(def);
    if d == "" || IsTableConstraint(d) then ("", "", "") else ParseColumn(d)
  }

  lemma TrimWithin(s: string) returns (w1: string, w2: string)
    ensures s == w1 + TrimSpace(s) + w2 && Blank(w1) && Blank(w2)
  {
    var a, b := TrimParts(s);
    w1, w2 := s[..a], s[b..];
  }

  lemma Reassociate(n: string, a: string, b: string, typ: string, c: string, d: string, cons: string,
                    e: string, f: string)
    ensures n + (a + ((b + typ + c) + (d + cons + e)) + f) == n + (a + b) + typ + (c + d) + cons + (e + f)
  {
  }

  lemma ThreeParts(d: string, n: nat, k: nat) returns (w1: string, w2: string, w3: string)
    requires n <= |d| && k <= |TrimSpace(d[n..])|
    ensures var rest := TrimSpace(d[n..]);
            d == d[..n] + w1 + TrimSpace(rest[..k]) + w2 + TrimSpace(rest[k..]) + w3
    ensures Blank(w1) && Blank(w2) && Blank(w3)
  {
    var rest := TrimSpace(d[n..]);
    var a, f := TrimWithin(d[n..]);
    var b, c := TrimWithin(rest[..k]);
    var e, g := TrimWithin(rest[k..]);
    w1, w2, w3 := a + b, c + e, g + f;
    assert d == d[..n] + d[n..] && rest == rest[..k] + rest[k..];
    Reassociate(d[..n], a, b, TrimSpace(rest[..k]), c, e, TrimSpace(rest[k..]), g, f);
  }

  // Reading a column loses nothing but white space around its three parts.
  lemma ParseKeepsText(d: string) returns (w1: string, w2: string, w3: string)
    requires d != ""
    ensures var (name, typ, cons) := ParseColumn(d);
            d == name + w1 + typ + w2 + cons + w3 && Blank(w1) && Blank(w2) && Blank(w3)
  {
    w1, w2, w3 := ThreeParts(d, NameEnd(d), TypeEnd(TrimSpace(d[NameEnd(d)..]), 0, 0));
  }

  // -- The edit ----------------------------------------------------------------------------

  function UnquoteIdent(name: string): string {
    var s := TrimRightSemicolons(name);
    var t := if s != "" && s[0] == '"' then s[1..] else s;
    if t != "" && t[|t| - 1] == '"' then t[..|t| - 1] else t
  }

  function TrimRightSemicolons(s: string): string {
    if s != "" && s[|s| - 1] == ';' then TrimRightSemicolons(s[..|s| - 1]) else s
  }

  predicate Names(def: string, col: string) {
    var name := ParseColDef(def).0;
    name != "" && Lower(UnquoteIdent(name)) == Lower(col)
  }

  function Edited(def: string, edit: Edit): string {
    var (name, typ, cons) := ParseColDef(def);
    edit(name, typ, cons)
  }

  function IndexOf(defs: seq<string>, col: string): (r: Option<nat>)
    ensures r.Some? ==> r.value < |defs| && Names(defs[r.value], col)
    ensures forall i :: 0 <= i < (if r.Some? then r.value else |defs|) ==> !Names(defs[i], col)
  {
    if defs == [] then None
    else if Names(defs[0], col) then Some(0)
    else Plus(1, IndexOf(defs[1..], col))
  }

  // The definitions with the first one named col rewritten.
  function EditFirst(defs: seq<string>, col: string, edit: Edit): Option<seq<string>> {
    var i := IndexOf(defs, col);
    if i.None? then None else Some(defs[i.value := " " + Edited(defs[i.value], edit) + " "])
  }

  method EditFirstLoop(defs: seq<string>, col: string, edit: Edit) returns (r: Option<seq<string>>)
    ensures r == EditFirst(defs, col, edit)
  {
    for idx := 0 to |defs|
      invariant forall i :: 0 <= i < idx ==> !Names(defs[i], col)
    {
      var (name, typ, cons) := ParseColDef(defs[idx]);
      if name != "" && Lower(UnquoteIdent(name)) == Lower(col) {
        FirstNamed(defs, col, idx);
        return Some(defs[idx := " " + edit(name, typ, cons) + " "]);
      }
    }
    return None;
  }

  // The list that begins at the start of the text, and what is from its closing parenthesis on;
  // when it is never closed, everything, and nothing.
  function ListText(tail: string): (string, string) {
    var n := InnerLength(Out(0), tail);
    if n.Some? then (tail[..n.value], tail[n.value..]) else (tail, "")
  }

  // The text around and in the list: up to and with the first parenthesis, its definitions, and
  // from the parenthesis that closes it.
  datatype Table = Table(before: string, defs: seq<string>, after: string)

  function Write(t: Table): string { t.before + Join(t.defs, ",") + t.after }

  // A CREATE TABLE whose list is closed, read.
  function ReadTable(ddl: string): Option<Table> {
    var open := IndexFrom(ddl, "(", 0);
    if open.None? then None
    else
      var (inner, after) := ListText(ddl[open.value + 1..]);
      if after == "" then None else Some(Table(ddl[..open.value + 1], SplitTopLevel(inner), after))
  }

  function WriteEdited(t: Table, col: string, edit: Edit): Option<string> {
    var edited := EditFirst(t.defs, col, edit);
    if edited.None? then None else Some(Write(t.(defs := edited.value)))
  }

  // What editColumn returns. When the list is never closed, the text after it is the last
  // character once more.
  function EditedTable(ddl: string, col: string, edit: Edit): Option<string> {
    var open := IndexFrom(ddl, "(", 0);
    if open.None? then None
    else
      var (inner, after) := ListText(ddl[open.value + 1..]);
      var tail := if after == "" then ddl[|ddl| - 1..] else after;
      WriteEdited(Table(ddl[..open.value + 1], SplitTopLevel(inner), tail), col, edit)
  }

  method ReadList(ddl: string, open: nat) returns (inner: string, after: nat)
    requires open < |ddl| && ddl[open] == '('
    ensures 0 < after <= |ddl| && inner == ListText(ddl[open + 1..]).0
    ensures var rest := ListText(ddl[open + 1..]).1;
            ddl[after - 1..] == if rest == "" then ddl[|ddl| - 1..] else rest
  {
    inner, after := BalancedParen(ddl, open);
    var n := InnerLength(Out(0), ddl[open + 1..]);
    if n.Some? {
      assert ddl[open + 1..][..n.value] == ddl[open + 1..open + 1 + n.value];
      assert ddl[open + 1..][n.value..] == ddl[open + 1 + n.value..];
    }
  }

  method EditColumn(ddl: string, col: string, edit: Edit) returns (r: Option<string>)
    ensures r == EditedTable(ddl, col, edit)
  {
    var open := IndexFrom(ddl, "(", 0);
    if open.None? {
      return None;
    }
    assert ddl[open.value..open.value + 1][0] == '(';
    var inner, after := ReadList(ddl, open.value);
    var defs := SplitTopLevelLoop(inner);
    var edited := EditFirstLoop(defs, col, edit);
    if edited.None? {
      return None;
    }
    ghost var t := Table(ddl[..open.value + 1], defs, ddl[after - 1..]);
    assert WriteEdited(t, col, edit) == Some(Write(t.(defs := edited.value)));
    return Some(ddl[..open.value + 1] + Join(edited.value, ",") + ddl[after - 1..]);
  }

  lemma FirstNamed(defs: seq<string>, col: string, i: nat)
    requires i < |defs| && Names(defs[i], col) && forall j :: 0 <= j < i ==> !Names(defs[j], col)
    ensures IndexOf(defs, col) == Some(i)
  {
    FirstTrue(IndexOf(defs, col), seq(|defs|, j requires 0 <= j < |defs| => Names(defs[j], col)), i);
  }

  lemma FirstTrue(r: Option<nat>, named: seq<bool>, i: nat)
    requires i < |named| && named[i] && forall j :: 0 <= j < i ==> !named[j]
    requires r.Some? ==> r.value < |named| && named[r.value]
    requires forall j :: 0 <= j < (if r.Some? then r.value else |named|) ==> !named[j]
    ensures r == Some(i)
  {
  }

  // -- What the edit changes -------------------------------------------------------------------

  lemma OpensFirst(before: string, rest: string)
    requires before != "" && IndexFrom(before, "(", 0) == Some(|before| - 1)
    ensures IndexFrom(before + rest, "(", 0) == Some(|before| - 1)
  {
    var s := before + rest;
    var r := IndexFrom(s, "(", 0);
    assert At(before, |before| - 1, "(");
    assert s[|before| - 1..|before|] == before[|before| - 1..|before|];
    assert At(s, |before| - 1, "(");
    if r.value < |before| - 1 {
      assert s[r.value..r.value + 1] == before[r.value..r.value + 1];
      assert At(before, r.value, "(");
    }
  }

  lemma ReadListParts(tail: string)
    requires ListText(tail).1 != ""
    ensures var (inner, after) := ListText(tail);
            && tail == inner + after && after[0] == ')'
            && SplitTopLevel(inner) != []
            && (forall d <- SplitTopLevel(inner) :: OneDefinition(d))
            && Join(SplitTopLevel(inner), ",") == inner
  {
    var inner := ListText(tail).0;
    InnerIsClosed(Out(0), tail);
    PiecesAreDefinitions(Out(0), inner);
    var defs := SplitTopLevel(inner);
    assert defs == [defs[0]] + defs[1..];
    PiecesRejoin(inner);
  }

  lemma UpToFirstParen(ddl: string)
    requires IndexFrom(ddl, "(", 0).Some?
    ensures var before := ddl[..IndexFrom(ddl, "(", 0).value + 1];
            before != "" && IndexFrom(before, "(", 0) == Some(|before| - 1)
  {
    var start := IndexFrom(ddl, "(", 0).value + 1;
    var before := ddl[..start];
    assert before[start - 1..start] == ddl[start - 1..start];
    assert At(before, start - 1, "(");
    forall j | 0 <= j < start - 1 ensures !At(before, j, "(") {
      assert before[j..j + 1] == ddl[j..j + 1];
      assert !At(ddl, j, "(");
    }
  }

  lemma ReadTableIs(ddl: string) returns (start: nat, tail: string, inner: string)
    requires ReadTable(ddl).Some?
    ensures 0 < start <= |ddl| && tail == ddl[start..] && start - 1 == IndexFrom(ddl, "(", 0).value
    ensures var t := ReadTable(ddl).value;
            && t.before == ddl[..start] && t.after == ListText(tail).1 != "" && inner == ListText(tail).0
            && t.defs == SplitTopLevel(inner)
  {
    start := IndexFrom(ddl, "(", 0).value + 1;
    tail := ddl[start..];
    inner := ListText(tail).0;
  }

  lemma ReadThenWrite(ddl: string)
    requires ReadTable(ddl).Some?
    ensures Write(ReadTable(ddl).value) == ddl
  {
    var _, tail, inner := ReadTableIs(ddl);
    ReadListText(tail);
    WriteParts(ReadTable(ddl).value, inner, ddl);
  }

  lemma ReadListText(tail: string)
    requires ListText(tail).1 != ""
    ensures tail == ListText(tail).0 + ListText(tail).1
    ensures Join(SplitTopLevel(ListText(tail).0), ",") == ListText(tail).0
  {
    ReadListParts(tail);
  }

  lemma WriteParts(t: Table, inner: string, ddl: string)
    requires Join(t.defs, ",") == inner && |t.before| <= |ddl|
    requires t.before == ddl[..|t.before|] && ddl[|t.before|..] == inner + t.after
    ensures Write(t) == ddl
  {
    assert ddl == ddl[..|t.before|] + ddl[|t.before|..];
    assert t.before + (inner + t.after) == t.before + inner + t.after;
  }

  lemma ReadTableParts(ddl: string)
    requires ReadTable(ddl).Some?
    ensures var t := ReadTable(ddl).value;
            && t.defs != [] && (forall d <- t.defs :: OneDefinition(d))
            && t.before != "" && IndexFrom(t.before, "(", 0) == Some(|t.before| - 1)
            && t.after != "" && t.after[0] == ')'
  {
    var start, tail, inner := ReadTableIs(ddl);
    UpToFirstParen(ddl);
    ReadListParts(tail);
  }

  // Definitions written out as a table are read back, exactly when each is one definition.
  lemma WriteThenRead(t: Table)
    requires t.before != "" && IndexFrom(t.before, "(", 0) == Some(|t.before| - 1)
    requires t.defs != [] && t.after != "" && t.after[0] == ')'
    ensures ReadTable(Write(t)) == Some(t) <==> forall d <- t.defs :: OneDefinition(d)
  {
    var inner := Join(t.defs, ",");
    OpensFirst(t.before, inner + t.after);
    assert Write(t) == t.before + (inner + t.after);
    assert Write(t)[|t.before|..] == inner + t.after && Write(t)[..|t.before|] == t.before;
    if forall d <- t.defs :: OneDefinition(d) {
      JoinClosed(t.defs);
      ClosedList(inner, t.after);
      DefinitionsSplitBack(t.defs);
    }
    if ReadTable(Write(t)) == Some(t) {
      ReadTableParts(Write(t));
    }
  }

  lemma ClosedList(inner: string, after: string)
    requires Closed(Out(0), inner) && after != "" && after[0] == ')'
    ensures ListText(inner + after) == (inner, after)
  {
    assert after == ")" + after[1..] && inner + after == inner + ")" + after[1..];
    ClosedThenParen(Out(0), inner, after[1..]);
    assert (inner + after)[..|inner|] == inner && (inner + after)[|inner|..] == after;
  }

  // Reading the edited table gives the table with that one definition changed, and the rest of
  // the text as it was, exactly when the edited definition is still one definition.
  lemma EditChangesOneDefinition(ddl: string, col: string, edit: Edit)
    requires ReadTable(ddl).Some? && IndexOf(ReadTable(ddl).value.defs, col).Some?
    ensures var t := ReadTable(ddl).value;
            var i := IndexOf(t.defs, col).value;
            var t' := t.(defs := t.defs[i := " " + Edited(t.defs[i], edit) + " "]);
            && EditedTable(ddl, col, edit) == Some(Write(t'))
            && (ReadTable(Write(t')) == Some(t') <==> OneDefinition(Edited(t.defs[i], edit)))
  {
    var t := ReadTable(ddl).value;
    var i := IndexOf(t.defs, col).value;
    ReadTableParts(ddl);
    ReplaceOne(t, i, Edited(t.defs[i], edit));
  }

  lemma ReplaceOne(t: Table, i: nat, e: string)
    requires t.before != "" && IndexFrom(t.before, "(", 0) == Some(|t.before| - 1)
    requires i < |t.defs| && t.after != "" && t.after[0] == ')' && forall d <- t.defs :: OneDefinition(d)
    ensures var t' := t.(defs := t.defs[i := " " + e + " "]);
            ReadTable(Write(t')) == Some(t') <==> OneDefinition(e)
  {
    var t' := t.(defs := t.defs[i := " " + e + " "]);
    PaddedDefinition(e);
    WriteThenRead(t');
    assert t'.defs[i] == " " + e + " ";
    if OneDefinition(e) {
      forall d <- t'.defs ensures OneDefinition(d) {
        var j :| 0 <= j < |t'.defs| && t'.defs[j] == d;
        if j != i { assert d == t.defs[j]; }
      }
    }
  }

  // -- A list that is never closed ------------------------------------------------------------------

  // The text before the list, what editColumn makes of its definitions, and the text after it.
  function Around(ddl: string, edited: seq<string>, rest: string): string
    requires IndexFrom(ddl, "(", 0).Some?
  {
    ddl[..IndexFrom(ddl, "(", 0).value + 1] + Join(edited, ",") + rest
  }

  // Then everything from the parenthesis on is the list, and the last character of the text is
  // written once more after it.
  lemma UnclosedDoublesLast(ddl: string, col: string, edit: Edit)
    requires IndexFrom(ddl, "(", 0).Some?
    requires var tail := ddl[IndexFrom(ddl, "(", 0).value + 1..];
             InnerLength(Out(0), tail).None? && IndexOf(SplitTopLevel(tail), col).Some?
    ensures var defs := SplitTopLevel(ddl[IndexFrom(ddl, "(", 0).value + 1..]);
            var i := IndexOf(defs, col).value;
            EditedTable(ddl, col, edit) ==
              Some(Around(ddl, defs[i := " " + Edited(defs[i], edit) + " "], ddl[|ddl| - 1..]))
  {
  }

  // What follows the list in the text is kept exactly when the list is closed.
  lemma RestKeptExactly(ddl: string, col: string, edit: Edit)
    requires IndexFrom(ddl, "(", 0).Some?
    requires var tail := ddl[IndexFrom(ddl, "(", 0).value + 1..];
             EditFirst(SplitTopLevel(ListText(tail).0), col, edit).Some?
    ensures var tail := ddl[IndexFrom(ddl, "(", 0).value + 1..];
            var edited := EditFirst(SplitTopLevel(ListText(tail).0), col, edit).value;
            InnerLength(Out(0), tail).Some? <==>
              EditedTable(ddl, col, edit) == Some(Around(ddl, edited, ListText(tail).1))
  {
    var start := IndexFrom(ddl, "(", 0).value + 1;
    var tail := ddl[start..];
    var edited := EditFirst(SplitTopLevel(ListText(tail).0), col, edit).value;
    if InnerLength(Out(0), tail).None? {
      assert EditedTable(ddl, col, edit) == Some(Around(ddl, edited, ddl[|ddl| - 1..]));
      assert |Around(ddl, edited, ddl[|ddl| - 1..])| == |Around(ddl, edited, "")| + 1;
    }
  }

  // Any plain text ending in the first parenthesis, then plain text, then an apostrophe and no
  // other: it opens a string that never ends, and so the list is never closed.
  lemma LoneApostrophe(opens: string, before: string, after: string)
    requires opens != "" && IndexFrom(opens, "(", 0) == Some(|opens| - 1)
    requires (forall c <- before :: c != '\'' && c != '(' && c != ')') && '\'' !in after
    ensures var ddl := opens + (before + ("'" + after));
            IndexFrom(ddl, "(", 0) == Some(|opens| - 1) && InnerLength(Out(0), ddl[|opens|..]).None?
  {
    var inside := before + ("'" + after);
    OpensFirst(opens, inside);
    assert (opens + inside)[|opens|..] == inside;
    PlainText(0, before, "'" + after);
    StringOpens(0, after);
  }

  // An apostrophe in a quoted name is one: CREATE TABLE t (a int,"x'y" int) is never closed.
  const NAME_OPENS := "CREATE TABLE t ("
  const NAME_BEFORE := "a int,\"x"
  const NAME_AFTER := "y\" int)"

  lemma ApostropheInName()
    ensures var ddl := NAME_OPENS + (NAME_BEFORE + ("'" + NAME_AFTER));
            IndexFrom(ddl, "(", 0) == Some(15) && InnerLength(Out(0), ddl[16..]).None?
  {
    FirstOpens();
    LoneApostrophe(NAME_OPENS, NAME_BEFORE, NAME_AFTER);
  }

  lemma FirstOpens()
    ensures IndexFrom(NAME_OPENS, "(", 0) == Some(15)
  {
    assert At(NAME_OPENS, 15, "(") by { assert NAME_OPENS[15..16] == "("; }
    forall j | 0 <= j < 15 ensures !At(NAME_OPENS, j, "(") {
      assert NAME_OPENS[j..j + 1] == [NAME_OPENS[j]];
    }
  }

  lemma StringOpens(d: int, s: string)
    requires '\'' !in s
    ensures InnerLength(Out(d), "'" + s).None?
  {
    assert ("'" + s)[1..] == s;
    NeverEnds(d, s);
  }

  lemma {:induction false} PlainText(d: int, p: string, rest: string)
    requires forall c <- p :: c != '\'' && c != '(' && c != ')'
    ensures InnerLength(Out(d), p + rest) == Plus(|p|, InnerLength(Out(d), rest))
    decreases |p|
  {
    if p == "" {
      assert p + rest == rest;
    } else {
      assert (p + rest)[0] == p[0] && (p + rest)[1..] == p[1..] + rest && p[0] in p;
      assert forall c <- p[1..] :: c in p;
      PlainText(d, p[1..], rest);
    }
  }

  lemma {:induction false} NeverEnds(d: int, s: string)
    requires '\'' !in s
    ensures InnerLength(In(d), s).None?
    decreases |s|
  {
    if s != "" {
      assert forall c <- s[1..] :: c in s;
      NeverEnds(d, s[1..]);
    }
  }
}
