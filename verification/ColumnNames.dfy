/**
 What splitTopLevel does not know: quoted names and comments. Beside it stands a reading of the list
 that does, and the lists on which the two agree (protocol/postgres/sequences.go).
 */
module ColumnNames {
  import opened ColumnList

  // Where a reader of SQL stands at a depth of parentheses: in code, having just read a character,
  // in a string, in a quoted name, or in a comment.
  datatype Sql =
    | Code(depth: int, last: char)
    | Quoted(depth: int)
    | Name(depth: int)
    | LineComment(depth: int)
    | BlockComment(depth: int, last: char)

  function SqlNext(st: Sql, c: char): Sql {
    match st
    case Code(d, last) =>
      if c == '\'' then Quoted(d)
      else if c == '"' then Name(d)
      else if last == '-' && c == '-' then LineComment(d)
      else if last == '/' && c == '*' then BlockComment(d, ' ')
      else if c == '(' then Code(d + 1, c)
      else if c == ')' then Code(d - 1, c)
      else Code(d, c)
    case Quoted(d) => if c == '\'' then Code(d, c) else st
    case Name(d) => if c == '"' then Code(d, c) else st
    case LineComment(d) => if c == '\n' then Code(d, c) else st
    case BlockComment(d, last) => if last == '*' && c == '/' then Code(d, ' ') else BlockComment(d, c)
  }

  predicate InCode(st: Sql) { st.Code? && st.depth == 0 }

  function SqlSplit(st: Sql, s: string): Parts
    decreases |s|
  {
    if s == "" then [""]
    else if s[0] == ',' && InCode(st) then [""] + SqlSplit(Code(0, ','), s[1..])
    else Prepend([s[0]], SqlSplit(SqlNext(st, s[0]), s[1..]))
  }

  // The two readers are in step.
  predicate InStep(st: Sql, w: Where) { st.depth == w.depth && (st.Quoted? <==> w.In?) }

  lemma PrependInjective(c: char, a: Parts, b: Parts)
    ensures Prepend([c], a) == Prepend([c], b) <==> a == b
    ensures Prepend([c], a)[0] != ""
  {
    if Prepend([c], a) == Prepend([c], b) {
      assert ([c] + a[0])[1..] == a[0] && ([c] + b[0])[1..] == b[0];
      assert a == [a[0]] + Prepend([c], a)[1..] && b == [b[0]] + Prepend([c], b)[1..];
    }
  }

  // At every comma the two readers agree whether it stands between definitions.
  predicate AgreeAtCommas(st: Sql, w: Where, s: string)
    decreases |s|
  {
    s == ""
    || (&& (s[0] == ',' ==> (InCode(st) <==> Top(w)))
        && AgreeAtCommas(SqlNext(st, s[0]), Next(w, s[0]), s[1..]))
  }

  lemma {:induction false} SplitsAlike(st: Sql, w: Where, s: string)
    ensures SqlSplit(st, s) == SplitFrom(w, s) <==> AgreeAtCommas(st, w, s)
    decreases |s|
  {
    if s != "" {
      var c, st', w' := s[0], SqlNext(st, s[0]), Next(w, s[0]);
      SplitsAlike(st', w', s[1..]);
      PrependInjective(c, SqlSplit(st', s[1..]), SplitFrom(w', s[1..]));
      PrependInjective(c, SplitFrom(w', s[1..]), SplitFrom(w', s[1..]));
      if c == ',' && InCode(st) && Top(w) { CutsAlike(s, w'); }
    }
  }

  lemma CutsAlike(s: string, w: Where)
    requires s != "" && w == Out(0)
    ensures ([""] + SqlSplit(Code(0, ','), s[1..]) == [""] + SplitFrom(w, s[1..]))
      <==> SqlSplit(Code(0, ','), s[1..]) == SplitFrom(w, s[1..])
  {
    var a, b := SqlSplit(Code(0, ','), s[1..]), SplitFrom(w, s[1..]);
    assert ([""] + a)[1..] == a && ([""] + b)[1..] == b;
  }

  // No quoted name and no comment holds a parenthesis or an apostrophe. It may hold commas.
  predicate Tame(st: Sql, s: string)
    decreases |s|
  {
    s == ""
    || (&& (st.Code? || st.Quoted? || s[0] !in {'(', ')', '\''})
        && Tame(SqlNext(st, s[0]), s[1..]))
  }

  // No quoted name and no comment outside parentheses holds a comma.
  predicate NoCommaAtTop(st: Sql, s: string)
    decreases |s|
  {
    s == ""
    || (&& (st.Code? || st.Quoted? || st.depth != 0 || s[0] != ',')
        && NoCommaAtTop(SqlNext(st, s[0]), s[1..]))
  }

  lemma {:induction false} TameAgrees(st: Sql, w: Where, s: string)
    requires InStep(st, w) && Tame(st, s)
    ensures AgreeAtCommas(st, w, s) <==> NoCommaAtTop(st, s)
    decreases |s|
  {
    if s != "" { TameAgrees(SqlNext(st, s[0]), Next(w, s[0]), s[1..]); }
  }

  // splitTopLevel cuts a list where a reader of SQL does, exactly when the two agree at every
  // comma: for a list whose names and comments are tame, exactly when none of those outside
  // parentheses holds a comma.
  lemma SplitsAsSqlExactly(s: string)
    ensures SqlSplit(Code(0, ' '), s) == SplitTopLevel(s) <==> AgreeAtCommas(Code(0, ' '), Out(0), s)
    ensures Tame(Code(0, ' '), s) ==>
        (SqlSplit(Code(0, ' '), s) == SplitTopLevel(s) <==> NoCommaAtTop(Code(0, ' '), s))
  {
    SplitsAlike(Code(0, ' '), Out(0), s);
    if Tame(Code(0, ' '), s) { TameAgrees(Code(0, ' '), Out(0), s); }
  }

  // A comma in a quoted name cuts it in two, whatever stands around it in the name.
  lemma CommaInName(p: string, rest: string)
    requires forall c <- p :: c !in {',', '(', ')', '\'', '"'}
    ensures SplitTopLevel("\"" + p + "," + rest) == ["\"" + p] + SplitTopLevel(rest)
    ensures SqlSplit(Code(0, ' '), "\"" + p + "," + rest)[0] != "\"" + p
  {
    var q := "\"" + p;
    assert forall c <- q :: c == '"' || c in p;
    PlainThenComma(q, rest);
    var s := q + "," + rest;
    assert s[0] == '"' && s[1..] == p + ("," + rest);
    NameGoesOn(p + ",", rest);
    assert p + ("," + rest) == (p + ",") + rest;
  }

  lemma {:induction false} PlainThenComma(p: string, rest: string)
    requires forall c <- p :: c !in {',', '(', ')', '\''}
    ensures SplitTopLevel(p + "," + rest) == [p] + SplitTopLevel(rest)
    decreases |p|
  {
    var s := p + "," + rest;
    if p == "" {
      assert s[1..] == rest;
    } else {
      assert s[0] == p[0] && p[0] in p && s[1..] == p[1..] + "," + rest;
      assert forall c <- p[1..] :: c in p;
      PlainThenComma(p[1..], rest);
      assert [p[0]] + p[1..] == p;
    }
  }

  // Inside a name everything up to its end stays in the first piece.
  lemma {:induction false} NameGoesOn(p: string, rest: string)
    requires '"' !in p
    ensures |SqlSplit(Name(0), p + rest)[0]| >= |p|
    decreases |p|
  {
    if p != "" {
      var s := p + rest;
      assert s[0] == p[0] && p[0] in p && s[1..] == p[1..] + rest;
      assert forall c <- p[1..] :: c in p;
      NameGoesOn(p[1..], rest);
    }
  }
}
