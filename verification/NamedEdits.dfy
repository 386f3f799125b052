/**
 editColumn seen by a reader of SQL that knows quoted names and comments: when the definition it
 rewrites is one of that reader's (protocol/postgres/alter.go, protocol/postgres/sequences.go).
 */
module NamedEdits {
  import opened Options
  import opened Text
  import opened ColumnList
  import opened ColumnNames
  import opened ColumnEdit

  // Where the reader of SQL stands after a text.
  function SqlState(st: Sql, s: string): Sql
    decreases |s|
  {
    if s == "" then st else SqlState(SqlNext(st, s[0]), s[1..])
  }

  // The text of the definitions before one, with the comma after each.
  function Lead(defs: seq<string>): string { if defs == [] then "" else defs[0] + "," + Lead(defs[1..]) }

  // And the text after it, with the comma before each.
  function Tail(defs: seq<string>): string { if defs == [] then "" else "," + Join(defs, ",") }

  // Where the reader of SQL stands at the end of the i-th definition.
  function EndState(st: Sql, defs: seq<string>, i: nat): Sql
    requires i < |defs|
    decreases i
  {
    var end := SqlState(st, defs[0]);
    if i == 0 then end else EndState(SqlNext(end, ','), defs[1..], i - 1)
  }

  // The commas on both sides of a definition, where there are any, stand in code.
  predicate BetweenCode(st: Sql, defs: seq<string>, i: nat)
    requires i < |defs|
  {
    && (i > 0 ==> EndState(st, defs, i - 1).Code?)
    && (i + 1 < |defs| ==> EndState(st, defs, i).Code?)
  }

  // The definition is the reader's j-th one, in the same place.
  predicate SeenAs(pieces: seq<string>, j: nat, defs: seq<string>, i: nat)
    requires i < |defs|
  {
    j < |pieces| && pieces[j] == defs[i] && Lead(pieces[..j]) == Lead(defs[..i])
  }

  // -- One definition after another ------------------------------------------------------------------

  // Reading one definition, and a comma if there is more.
  lemma {:induction false} Through(st: Sql, w: Where, d: string, rest: string)
    requires InStep(st, w) && Closed(w, d) && NoComma(w, d) && Tame(st, d + "," + rest)
    ensures var end := SqlState(st, d);
            && end.depth == 0 && !end.Quoted? && Tame(SqlNext(end, ','), rest)
            && SqlSplit(st, d + "," + rest) ==
                 (if end.Code? then [d] + SqlSplit(Code(0, ','), rest)
                  else Prepend(d + ",", SqlSplit(SqlNext(end, ','), rest)))
    decreases |d|
  {
    var s := d + "," + rest;
    if d == "" {
      assert s[0] == ',' && s[1..] == rest;
      assert [','] == d + ",";
    } else {
      assert s[0] == d[0] && s[1..] == d[1..] + "," + rest;
      Through(SqlNext(st, d[0]), Next(w, d[0]), d[1..], rest);
      OneMoreChar(d, SqlSplit(SqlNext(SqlState(st, d), ','), rest), SqlSplit(Code(0, ','), rest));
    }
  }

  lemma OneMoreChar(d: string, next: Parts, after: seq<string>)
    requires d != ""
    ensures Prepend([d[0]], [d[1..]] + after) == [d] + after
    ensures Prepend([d[0]], Prepend(d[1..] + ",", next)) == Prepend(d + ",", next)
  {
    assert [d[0]] + d[1..] == d && ([d[1..]] + after)[1..] == after;
    assert [d[0]] + ((d[1..] + ",") + next[0]) == (d + ",") + next[0];
  }

  lemma {:induction false} Alone(st: Sql, w: Where, d: string)
    requires InStep(st, w) && NoComma(w, d) && Tame(st, d)
    ensures SqlSplit(st, d) == [d]
    decreases |d|
  {
    if d != "" {
      Alone(SqlNext(st, d[0]), Next(w, d[0]), d[1..]);
      assert [d[0]] + d[1..] == d;
    }
  }

  // The reader's pieces of a list, the first of which begins in code or, when not `b`, does not.
  ghost predicate Seen(st: Sql, b: bool, defs: seq<string>, i: nat)
    requires i < |defs|
  {
    exists j: nat :: (b || j > 0) && SeenAs(SqlSplit(st, Join(defs, ",")), j, defs, i)
  }

  predicate BeginsInCode(st: Sql, b: bool, defs: seq<string>, i: nat)
    requires i < |defs|
  {
    if i == 0 then b else EndState(st, defs, i - 1).Code?
  }

  predicate EndsInCode(st: Sql, defs: seq<string>, i: nat)
    requires i < |defs|
  {
    i + 1 < |defs| ==> EndState(st, defs, i).Code?
  }

  lemma LeadFirst(d: string, pieces: seq<string>, j: nat)
    requires j <= |pieces|
    ensures Lead(([d] + pieces)[..j + 1]) == d + "," + Lead(pieces[..j])
  {
    assert ([d] + pieces)[..j + 1][1..] == pieces[..j];
  }

  lemma LeadRest(defs: seq<string>, i: nat)
    requires 0 < i <= |defs|
    ensures Lead(defs[..i]) == defs[0] + "," + Lead(defs[1..][..i - 1])
  {
    assert defs[..i][1..] == defs[1..][..i - 1];
  }

  lemma SameLead(d: string, a: string, b: string)
    ensures d + "," + a == d + "," + b <==> a == b
  {
    if d + "," + a == d + "," + b {
      assert (d + "," + a)[|d| + 1..] == a && (d + "," + b)[|d| + 1..] == b;
    }
  }

  // The first definition is the reader's first, when its comma is in code.
  lemma FirstSeen(d: string, pieces: seq<string>, more: seq<string>, j: nat)
    ensures SeenAs([d] + pieces, j, [d] + more, 0) <==> j == 0
  {
    if j > 0 && j < |[d] + pieces| {
      LeadFirst(d, pieces, j - 1);
      assert Lead(([d] + more)[..0]) == "";
    } else if j == 0 {
      assert Lead(([d] + pieces)[..0]) == "" && Lead(([d] + more)[..0]) == "";
    }
  }

  // A later one is among the others.
  lemma LaterSeen(d: string, pieces: seq<string>, more: seq<string>, j: nat, i: nat)
    requires i < |more|
    ensures SeenAs([d] + pieces, j, [d] + more, i + 1) <==> j > 0 && SeenAs(pieces, j - 1, more, i)
  {
    LeadFirst(d, more, i);
    if j == 0 {
      assert Lead(([d] + pieces)[..0]) == "";
    } else if j <= |pieces| {
      LeadFirst(d, pieces, j - 1);
      SameLead(d, Lead(pieces[..j - 1]), Lead(more[..i]));
    }
  }

  // When the comma is not in code, the reader's first piece runs on past it.
  lemma GluedSeen(d: string, pieces: Parts, more: seq<string>, j: nat, i: nat)
    requires i <= |more|
    ensures SeenAs(Prepend(d + ",", pieces), j, [d] + more, i) <==>
              i > 0 && j > 0 && SeenAs(pieces, j, more, i - 1)
  {
    var glued := Prepend(d + ",", pieces);
    if j == 0 {
      assert Lead(glued[..0]) == "";
      if i > 0 { LeadFirst(d, more, i - 1); }
    } else if j < |glued| {
      GluedLead(d, pieces, j);
      if i > 0 {
        LeadFirst(d, more, i - 1);
        SameLead(d, Lead(pieces[..j]), Lead(more[..i - 1]));
      } else {
        assert Lead(([d] + more)[..0]) == "";
      }
    }
  }

  lemma GluedLead(d: string, pieces: Parts, j: nat)
    requires 0 < j < |pieces|
    ensures Lead(Prepend(d + ",", pieces)[..j]) == d + "," + Lead(pieces[..j])
  {
    var glued := Prepend(d + ",", pieces);
    assert glued[..j][0] == d + "," + pieces[0] && glued[..j][1..] == pieces[..j][1..];
    assert d + "," + pieces[0] + "," + Lead(pieces[..j][1..]) == d + "," + (pieces[0] + "," + Lead(pieces[..j][1..]));
  }

  // A definition the splitter finds is the reader's exactly when it begins and ends in code.
  lemma {:induction false} SeenExactly(st: Sql, b: bool, defs: seq<string>, i: nat)
    requires i < |defs| && InStep(st, Out(0)) && Tame(st, Join(defs, ","))
    requires forall d <- defs :: OneDefinition(d)
    ensures Seen(st, b, defs, i) <==> BeginsInCode(st, b, defs, i) && EndsInCode(st, defs, i)
    decreases |defs|
  {
    var d := defs[0];
    assert d in defs;
    if |defs| == 1 {
      Alone(st, Out(0), d);
      assert defs == [d] + [] && [d] == [d] + [];
      FirstSeen(d, [], [], 0);
      forall j: nat ensures SeenAs([d], j, defs, 0) <==> j == 0 { FirstSeen(d, [], [], j); }
    } else {
      SeenFurther(st, b, defs, i);
    }
  }

  // The reader's pieces of a list, from those of the list after the first definition.
  lemma FirstRead(st: Sql, defs: seq<string>) returns (end: Sql, pieces: Parts)
    requires |defs| > 1 && InStep(st, Out(0)) && Tame(st, Join(defs, ",")) && OneDefinition(defs[0])
    ensures end == SqlState(st, defs[0]) && pieces == SqlSplit(SqlNext(end, ','), Join(defs[1..], ","))
    ensures InStep(SqlNext(end, ','), Out(0)) && Tame(SqlNext(end, ','), Join(defs[1..], ","))
    ensures SqlSplit(st, Join(defs, ",")) ==
              if end.Code? then [defs[0]] + pieces else Prepend(defs[0] + ",", pieces)
  {
    Through(st, Out(0), defs[0], Join(defs[1..], ","));
    end := SqlState(st, defs[0]);
    pieces := SqlSplit(SqlNext(end, ','), Join(defs[1..], ","));
  }

  lemma {:induction false} SeenFurther(st: Sql, b: bool, defs: seq<string>, i: nat)
    requires i < |defs| && |defs| > 1 && InStep(st, Out(0)) && Tame(st, Join(defs, ","))
    requires forall d <- defs :: OneDefinition(d)
    ensures Seen(st, b, defs, i) <==> BeginsInCode(st, b, defs, i) && EndsInCode(st, defs, i)
    decreases |defs|, 0
  {
    var d, more := defs[0], defs[1..];
    assert d in defs && defs == [d] + more;
    var end, pieces := FirstRead(st, defs);
    if i == 0 {
      FirstPast(b, d, more, pieces, end.Code?);
    } else {
      SeenExactly(SqlNext(end, ','), end.Code?, more, i - 1);
      SameEnds(st, b, defs, i, end);
      LaterPast(b, d, more, pieces, end.Code?, i, i - 1);
    }
  }

  lemma SameEnds(st: Sql, b: bool, defs: seq<string>, i: nat, end: Sql)
    requires 0 < i < |defs| && end == SqlState(st, defs[0])
    ensures BeginsInCode(st, b, defs, i) == BeginsInCode(SqlNext(end, ','), end.Code?, defs[1..], i - 1)
    ensures EndsInCode(st, defs, i) == EndsInCode(SqlNext(end, ','), defs[1..], i - 1)
  {
  }

  lemma LaterPast(b: bool, d: string, more: seq<string>, pieces: Parts, code: bool, i: nat, k: nat)
    requires i == k + 1 && k < |more|
    ensures var all := if code then [d] + pieces else Prepend(d + ",", pieces);
            (exists j: nat :: (b || j > 0) && SeenAs(all, j, [d] + more, i)) <==>
              exists j: nat :: (code || j > 0) && SeenAs(pieces, j, more, k)
  {
    if code { LaterPastCode(b, d, more, pieces, i, k); } else { LaterPastName(b, d, more, pieces, i, k); }
  }

  lemma FirstPast(b: bool, d: string, more: seq<string>, pieces: Parts, code: bool)
    ensures var all := if code then [d] + pieces else Prepend(d + ",", pieces);
            (exists j: nat :: (b || j > 0) && SeenAs(all, j, [d] + more, 0)) <==> b && code
  {
    var all := if code then [d] + pieces else Prepend(d + ",", pieces);
    forall j: nat ensures SeenAs(all, j, [d] + more, 0) <==> code && j == 0 {
      if code { FirstSeen(d, pieces, more, j); } else { GluedSeen(d, pieces, more, j, 0); }
    }
    assert SeenAs(all, 0, [d] + more, 0) <==> code;
  }

  lemma LaterPastCode(b: bool, d: string, more: seq<string>, pieces: seq<string>, i: nat, k: nat)
    requires i == k + 1 && k < |more|
    ensures (exists j: nat :: (b || j > 0) && SeenAs([d] + pieces, j, [d] + more, i)) <==>
              exists j: nat :: SeenAs(pieces, j, more, k)
  {
    if j: nat :| (b || j > 0) && SeenAs([d] + pieces, j, [d] + more, i) {
      LaterSeen(d, pieces, more, j, k);
      assert SeenAs(pieces, j - 1, more, k);
    }
    if j: nat :| SeenAs(pieces, j, more, k) {
      LaterSeen(d, pieces, more, j + 1, k);
      assert SeenAs([d] + pieces, j + 1, [d] + more, i);
    }
  }

  lemma LaterPastName(b: bool, d: string, more: seq<string>, pieces: Parts, i: nat, k: nat)
    requires i == k + 1 && k < |more|
    ensures (exists j: nat :: (b || j > 0) && SeenAs(Prepend(d + ",", pieces), j, [d] + more, i)) <==>
              exists j: nat :: j > 0 && SeenAs(pieces, j, more, k)
  {
    if j: nat :| (b || j > 0) && SeenAs(Prepend(d + ",", pieces), j, [d] + more, i) {
      GluedSeen(d, pieces, more, j, i);
      assert j > 0 && SeenAs(pieces, j, more, k);
    }
    if j: nat :| j > 0 && SeenAs(pieces, j, more, k) {
      GluedSeen(d, pieces, more, j, i);
      assert SeenAs(Prepend(d + ",", pieces), j, [d] + more, i);
    }
  }

  // -- The edit ------------------------------------------------------------------------------------------

  // Rewriting a definition where it stands gives one text, whoever cut the rest.
  lemma {:induction false} Splice(pieces: seq<string>, j: nat, x: string)
    requires j < |pieces|
    ensures Join(pieces[j := x], ",") == Lead(pieces[..j]) + x + Tail(pieces[j + 1..])
    decreases j
  {
    if j == 0 {
      SpliceFirst(pieces, x);
    } else {
      Splice(pieces[1..], j - 1, x);
      LeadRest(pieces, j);
      assert pieces[1..][j..] == pieces[j + 1..];
      JoinFirst(pieces, j, x);
      Regrouped(pieces[0] + ",", Lead(pieces[1..][..j - 1]), x, Tail(pieces[j + 1..]));
    }
  }

  lemma Regrouped(a: string, b: string, c: string, d: string)
    ensures a + (b + c + d) == (a + b) + c + d
  {
  }

  lemma JoinFirst(pieces: seq<string>, j: nat, x: string)
    requires 0 < j < |pieces|
    ensures Join(pieces[j := x], ",") == pieces[0] + "," + Join(pieces[1..][j - 1 := x], ",")
  {
    assert pieces[j := x][1..] == pieces[1..][j - 1 := x];
  }

  lemma SpliceFirst(pieces: seq<string>, x: string)
    requires pieces != []
    ensures Join(pieces[0 := x], ",") == Lead(pieces[..0]) + x + Tail(pieces[1..])
  {
    assert pieces[0 := x][1..] == pieces[1..];
    if |pieces| == 1 {
      assert Lead(pieces[..0]) + x + "" == x;
    } else {
      assert Lead(pieces[..0]) + x + ("," + Join(pieces[1..], ",")) == x + "," + Join(pieces[1..], ",");
    }
  }

  lemma SpliceAlike(pieces: seq<string>, j: nat, defs: seq<string>, i: nat, x: string)
    requires i < |defs| && SeenAs(pieces, j, defs, i) && Join(pieces, ",") == Join(defs, ",")
    ensures Join(pieces[j := x], ",") == Join(defs[i := x], ",")
  {
    Splice(pieces, j, x);
    Splice(defs, i, x);
    Splice(pieces, j, pieces[j]);
    Splice(defs, i, defs[i]);
    assert pieces[j := pieces[j]] == pieces && defs[i := defs[i]] == defs;
    SameEnd(Lead(defs[..i]) + defs[i], Tail(pieces[j + 1..]), Tail(defs[i + 1..]));
  }

  lemma SameEnd(a: string, b: string, c: string)
    requires a + b == a + c
    ensures b == c
  {
    assert (a + b)[|a|..] == b && (a + c)[|a|..] == c;
  }

  lemma {:induction false} SqlRejoins(st: Sql, s: string)
    ensures Join(SqlSplit(st, s), ",") == s
    decreases |s|
  {
    if s != "" {
      if s[0] == ',' && InCode(st) {
        SqlRejoins(Code(0, ','), s[1..]);
        JoinAfterEmpty(SqlSplit(Code(0, ','), s[1..]));
      } else {
        SqlRejoins(SqlNext(st, s[0]), s[1..]);
        PrependJoin([s[0]], SqlSplit(SqlNext(st, s[0]), s[1..]));
      }
      assert s == [s[0]] + s[1..];
    }
  }

  const START := Code(0, ' ')

  // The definitions of a closed column list as a reader of SQL sees them.
  function SqlDefs(t: Table): seq<string> { SqlSplit(START, Join(t.defs, ",")) }

  // The edit rewrites one definition of the reader's list, and what it is called for.
  ghost predicate EditsOneOf(t: Table, pieces: seq<string>, i: nat, after: string, edit: Edit)
    requires i < |t.defs|
  {
    exists j: nat ::
      && SeenAs(pieces, j, t.defs, i)
      && after == t.before + Join(pieces[j := " " + Edited(pieces[j], edit) + " "], ",") + t.after
  }

  // On a list with tame names and comments, editColumn rewrites one definition of the list as a
  // reader of SQL sees it, exactly when the commas on both sides of it stand in code.
  lemma EditsWhatSqlSeesExactly(ddl: string, col: string, edit: Edit)
    requires ReadTable(ddl).Some? && IndexOf(ReadTable(ddl).value.defs, col).Some?
    requires Tame(START, Join(ReadTable(ddl).value.defs, ","))
    ensures var t := ReadTable(ddl).value;
            var i := IndexOf(t.defs, col).value;
            EditedTable(ddl, col, edit).Some? &&
            (EditsOneOf(t, SqlDefs(t), i, EditedTable(ddl, col, edit).value, edit) <==> BetweenCode(START, t.defs, i))
  {
    var t := ReadTable(ddl).value;
    var i := IndexOf(t.defs, col).value;
    ReadTableParts(ddl);
    EditChangesOneDefinition(ddl, col, edit);
    SeenExactly(START, true, t.defs, i);
    SqlRejoins(START, Join(t.defs, ","));
    forall j: nat | SeenAs(SqlDefs(t), j, t.defs, i)
      ensures Join(SqlDefs(t)[j := " " + Edited(SqlDefs(t)[j], edit) + " "], ",") ==
              Join(t.defs[i := " " + Edited(t.defs[i], edit) + " "], ",")
    {
      SpliceAlike(SqlDefs(t), j, t.defs, i, " " + Edited(t.defs[i], edit) + " ");
    }
  }

  // -- A comma in a name -----------------------------------------------------------------------------------

  lemma StateOfPlain(st: Sql, p: string, rest: string)
    requires st.Name? && '"' !in p
    ensures SqlState(st, p + rest) == SqlState(st, rest)
    decreases |p|
  {
    if p == "" {
      assert p + rest == rest;
    } else {
      assert (p + rest)[0] == p[0] && p[0] in p && (p + rest)[1..] == p[1..] + rest;
      assert forall c <- p[1..] :: c in p;
      StateOfPlain(st, p[1..], rest);
    }
  }

  // The half of a quoted name after its first comma begins in the name: whatever the rest of the list
  // is, an edit of it rewrites no definition of the reader's.
  lemma SecondHalfNotInCode(p: string, more: seq<string>)
    requires '"' !in p && more != []
    ensures !BetweenCode(START, ["\"" + p] + more, 1)
  {
    var defs := ["\"" + p] + more;
    assert ("\"" + p)[1..] == p + "" && ("\"" + p)[0] == '"';
    StateOfPlain(Name(0), p, "");
    assert SqlState(START, "\"" + p) == SqlState(Name(0), p + "");
    assert EndState(START, defs, 0) == Name(0);
  }

  lemma KeywordLetters()
    ensures forall kw <- TABLE_KEYWORDS :: kw != "" && kw[0] in {'C', 'P', 'U', 'F', 'E'}
  {
  }

  predicate PlainLetter(c: char) { IsIdentStart(c) && UpperChar(c) !in {'C', 'P', 'U', 'F', 'E'} }

  lemma NoConstraint(d: string)
    requires TrimLeftQuotes(d) != "" && PlainLetter(TrimLeftQuotes(d)[0])
    ensures !IsTableConstraint(d)
  {
    KeywordLetters();
    var first := Upper(TrimLeftQuotes(d));
    assert first[0] == UpperChar(TrimLeftQuotes(d)[0]);
    forall kw <- TABLE_KEYWORDS ensures !HasPrefix(first, kw) {
      if |kw| <= |first| { assert first[..|kw|][0] == first[0]; }
    }
  }

  lemma NoSpaces(d: string)
    requires d != "" && !IsSpace(d[0]) && !IsSpace(d[|d| - 1])
    ensures TrimSpace(d) == d
  {
  }

  // What stands after the comma in a name of two letters is read as a column of the second letter.
  lemma SecondHalfNamed(c: char, rest: string)
    requires PlainLetter(c) && rest != "" && !IsSpace(rest[|rest| - 1])
    ensures Names([c] + "\"" + rest, [c])
  {
    var d := [c] + "\"" + rest;
    NoSpaces(d);
    NoConstraint(d);
    assert IdentEnd(d, 1) == 1;
    assert IdentEnd(d, 0) == 1;
    assert d[..1] == [c];
  }

  // And what stands before it as a column of the first.
  lemma FirstHalfNamed(c: char, col: string)
    requires PlainLetter(c)
    ensures Names("\"" + [c], col) <==> Lower([c]) == Lower(col)
  {
    var d := "\"" + [c];
    NoSpaces(d);
    assert d[1..] == [c] && TrimLeftQuotes([c]) == [c];
    NoConstraint(d);
    assert FindQuote(d, 2) == 2;
    assert NameEnd(d) == 2 && d[..2] == d;
  }

  // In a list with the one column "a,b", of two letters, editing a column b rewrites the second half of
  // that column's name.
  lemma HalfOfNameEdited(a: char, b: char, rest: string)
    requires PlainLetter(a) && PlainLetter(b) && LowerChar(a) != LowerChar(b)
    requires rest != "" && !IsSpace(rest[|rest| - 1]) && forall c <- rest :: c !in {',', '(', ')', '\'', '"'}
    ensures var list := "\"" + [a] + "," + ([b] + "\"" + rest);
            var defs := SplitTopLevel(list);
            && Tame(START, list) && Join(defs, ",") == list
            && |defs| == 2 && IndexOf(defs, [b]) == Some(1) && !BetweenCode(START, defs, 1)
  {
    var half := [b] + "\"" + rest;
    var list := "\"" + [a] + "," + half;
    CommaInName([a], half);
    NoCommas(half);
    assert SplitTopLevel(list) == ["\"" + [a]] + [half];
    PiecesRejoin(list);
    SecondHalfNamed(b, rest);
    FirstHalfNamed(a, [b]);
    assert Lower([a])[0] != Lower([b])[0];
    FirstNamed(SplitTopLevel(list), [b], 1);
    SecondHalfNotInCode([a], [half]);
    NameThenPlain(a, b, rest);
  }

  lemma NoCommas(d: string)
    requires forall c <- d :: c != ',' && c != '\''
    ensures SplitTopLevel(d) == [d]
  {
    PlainNoComma(0, d);
    PieceAlone(Out(0), d);
  }

  lemma {:induction false} PlainNoComma(depth: int, d: string)
    requires forall c <- d :: c != ',' && c != '\''
    ensures NoComma(Out(depth), d)
    decreases |d|
  {
    if d != "" {
      assert d[0] in d && forall c <- d[1..] :: c in d;
      PlainNoComma(Next(Out(depth), d[0]).depth, d[1..]);
    }
  }

  lemma NameThenPlain(a: char, b: char, rest: string)
    requires PlainLetter(a) && PlainLetter(b) && forall c <- rest :: c !in {',', '(', ')', '\'', '"'}
    ensures Tame(START, "\"" + [a] + "," + ([b] + "\"" + rest))
  {
    PlainIsTame(Code(0, '"'), rest);
    TameBefore(Name(0), '"', rest);
    TameBefore(Name(0), b, "\"" + rest);
    TameBefore(Name(0), ',', [b] + ("\"" + rest));
    TameBefore(Name(0), a, "," + ([b] + ("\"" + rest)));
    TameBefore(START, '"', [a] + ("," + ([b] + ("\"" + rest))));
    assert "\"" + [a] + "," + ([b] + "\"" + rest) == "\"" + ([a] + ("," + ([b] + ("\"" + rest))));
  }

  lemma TameBefore(st: Sql, c: char, s: string)
    requires (st.Code? || c !in {'(', ')', '\''}) && Tame(SqlNext(st, c), s)
    ensures Tame(st, [c] + s)
  {
    assert ([c] + s)[1..] == s;
  }

  lemma {:induction false} PlainIsTame(st: Sql, s: string)
    requires forall c <- s :: c !in {',', '(', ')', '\'', '"'}
    ensures Tame(st, s)
    decreases |s|
  {
    if s != "" {
      assert s[0] in s && forall c <- s[1..] :: c in s;
      PlainIsTame(SqlNext(st, s[0]), s[1..]);
    }
  }
}
