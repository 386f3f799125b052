/**
 Splitting a column list at its top-level commas and finding where it closes
 (splitTopLevel and skipString in protocol/postgres/sequences.go, balancedParen in rls.go),
 read one character at a time, with the source's skipping loops proved to agree.
 */
module ColumnList {
  import opened Options
  import opened Text
  import opened SqlScan

  // Outside strings, in one, or at a quote that may be doubled; and how many parentheses are open.
  datatype Where = Out(depth: int) | In(depth: int) | Maybe(depth: int)

  function Next(w: Where, c: char): Where {
    match w
    case In(d) => if c == '\'' then Maybe(d) else w
    case _ =>
      if c == '\'' then In(w.depth)
      else if c == '(' then Out(w.depth + 1)
      else if c == ')' then Out(w.depth - 1)
      else Out(w.depth)
  }

  predicate Top(w: Where) { !w.In? && w.depth == 0 }

  // The text cut at its top-level commas, from a point where it reads w.
  function SplitFrom(w: Where, s: string): (r: seq<string>)
    ensures r != []
    decreases |s|
  {
    if s == "" then [""]
    else if s[0] == ',' && Top(w) then [""] + SplitFrom(Out(0), s[1..])
    else Prepend([s[0]], SplitFrom(Next(w, s[0]), s[1..]))
  }

  // A text cut into pieces has at least one.
  type Parts = p: seq<string> | p != [] witness [""]

  function Prepend(text: string, parts: Parts): (r: Parts)
    ensures |r| == |parts|
  {
    [text + parts[0]] + parts[1..]
  }

  function SplitTopLevel(s: string): (r: seq<string>)
    ensures r != []
  {
    SplitFrom(Out(0), s)
  }

  // How much text there is before the parenthesis that closes the list.
  function InnerLength(w: Where, s: string): (r: Option<nat>)
    ensures r.Some? ==> r.value < |s| && s[r.value] == ')'
    decreases |s|
  {
    if s == "" then None
    else if s[0] == ')' && Top(w) then Some(0)
    else
      var n := InnerLength(Next(w, s[0]), s[1..]);
      if n.Some? then Some(n.value + 1) else None
  }

  // Text that stays inside the list: it closes what it opens, ends its strings, and no more.
  predicate Closed(w: Where, s: string)
    decreases |s|
  {
    if s == "" then Top(w)
    else !(s[0] == ')' && Top(w)) && Closed(Next(w, s[0]), s[1..])
  }

  predicate NoComma(w: Where, s: string)
    decreases |s|
  {
    s == "" || (!(s[0] == ',' && Top(w)) && NoComma(Next(w, s[0]), s[1..]))
  }

  // One definition: closed, and without a top-level comma.
  predicate OneDefinition(s: string) { Closed(Out(0), s) && NoComma(Out(0), s) }

  // -- What is between the commas ------------------------------------------------------

  lemma PrependJoin(text: string, parts: Parts)
    ensures Join(Prepend(text, parts), ",") == text + Join(parts, ",")
  {
    if |parts| > 1 {
      assert Prepend(text, parts)[1..] == parts[1..];
    }
  }

  lemma JoinAfterEmpty(parts: Parts)
    ensures Join([""] + parts, ",") == "," + Join(parts, ",")
  {
    assert ([""] + parts)[1..] == parts;
    assert "" + "," + Join(parts, ",") == "," + Join(parts, ",");
  }

  lemma {:induction false} SplitFromRejoins(w: Where, s: string)
    ensures Join(SplitFrom(w, s), ",") == s
    decreases |s|
  {
    if s != "" {
      if s[0] == ',' && Top(w) {
        SplitFromRejoins(Out(0), s[1..]);
        JoinAfterEmpty(SplitFrom(Out(0), s[1..]));
      } else {
        SplitFromRejoins(Next(w, s[0]), s[1..]);
        PrependJoin([s[0]], SplitFrom(Next(w, s[0]), s[1..]));
      }
      assert s == [s[0]] + s[1..];
    }
  }

  // The pieces joined by commas are the text.
  lemma PiecesRejoin(s: string)
    ensures Join(SplitTopLevel(s), ",") == s
  {
    SplitFromRejoins(Out(0), s);
  }

  // A whole piece, then the text after its comma.
  lemma {:induction false} PieceThenComma(w: Where, p: string, rest: string)
    requires Closed(w, p) && NoComma(w, p)
    ensures SplitFrom(w, p + "," + rest) == [p] + SplitTopLevel(rest)
    decreases |p|
  {
    var s := p + "," + rest;
    if p == "" {
      assert s[0] == ',' && s[1..] == rest;
    } else {
      assert s[0] == p[0] && s[1..] == p[1..] + "," + rest;
      PieceThenComma(Next(w, p[0]), p[1..], rest);
      assert [p[0]] + p[1..] == p;
    }
  }

  lemma {:induction false} PieceAlone(w: Where, p: string)
    requires NoComma(w, p)
    ensures SplitFrom(w, p) == [p]
    decreases |p|
  {
    if p != "" {
      PieceAlone(Next(w, p[0]), p[1..]);
      assert [p[0]] + p[1..] == p;
    }
  }

  // Definitions joined by commas split back into themselves.
  lemma {:induction false} DefinitionsSplitBack(defs: seq<string>)
    requires defs != [] && forall d <- defs :: OneDefinition(d)
    ensures SplitTopLevel(Join(defs, ",")) == defs
    decreases |defs|
  {
    assert defs[0] in defs;
    if |defs| == 1 {
      PieceAlone(Out(0), defs[0]);
    } else {
      assert forall d <- defs[1..] :: d in defs;
      DefinitionsSplitBack(defs[1..]);
      PieceThenComma(Out(0), defs[0], Join(defs[1..], ","));
      assert defs == [defs[0]] + defs[1..];
    }
  }

  // And the closing parenthesis after them is found where it was put.
  lemma {:induction false} ClosedThenParen(w: Where, p: string, rest: string)
    requires Closed(w, p)
    ensures InnerLength(w, p + ")" + rest) == Some(|p|)
    decreases |p|
  {
    var s := p + ")" + rest;
    if p == "" {
      assert s[0] == ')';
    } else {
      assert s[0] == p[0] && s[1..] == p[1..] + ")" + rest;
      ClosedThenParen(Next(w, p[0]), p[1..], rest);
    }
  }

  lemma {:induction false} InnerIsClosed(w: Where, s: string)
    requires InnerLength(w, s).Some?
    ensures Closed(w, s[..InnerLength(w, s).value])
    decreases |s|
  {
    var n := InnerLength(w, s).value;
    if !(s[0] == ')' && Top(w)) {
      InnerIsClosed(Next(w, s[0]), s[1..]);
      assert s[..n][1..] == s[1..][..n - 1] && s[..n][0] == s[0];
    }
  }

  // Joining what is closed with commas is closed.
  lemma {:induction false} ClosedComma(w: Where, p: string, rest: string)
    requires Closed(w, p) && Closed(Out(0), rest)
    ensures Closed(w, p + "," + rest)
    decreases |p|
  {
    var s := p + "," + rest;
    if p == "" {
      assert s[0] == ',' && s[1..] == rest;
    } else {
      assert s[0] == p[0] && s[1..] == p[1..] + "," + rest;
      ClosedComma(Next(w, p[0]), p[1..], rest);
    }
  }

  lemma {:induction false} JoinClosed(defs: seq<string>)
    requires defs != [] && forall d <- defs :: OneDefinition(d)
    ensures Closed(Out(0), Join(defs, ","))
    decreases |defs|
  {
    assert defs[0] in defs;
    if |defs| > 1 {
      assert forall d <- defs[1..] :: d in defs;
      JoinClosed(defs[1..]);
      ClosedComma(Out(0), defs[0], Join(defs[1..], ","));
    }
  }

  // Each piece of a closed list is one definition.
  lemma {:induction false} PiecesAreDefinitions(w: Where, s: string)
    requires Closed(w, s)
    ensures Closed(w, SplitFrom(w, s)[0]) && NoComma(w, SplitFrom(w, s)[0])
    ensures forall d <- SplitFrom(w, s)[1..] :: OneDefinition(d)
    decreases |s|
  {
    if s != "" {
      if s[0] == ',' && Top(w) {
        PiecesAreDefinitions(Out(0), s[1..]);
        var rest := SplitFrom(Out(0), s[1..]);
        assert ([""] + rest)[1..] == rest;
        assert rest == [rest[0]] + rest[1..];
      } else {
        var rest := SplitFrom(Next(w, s[0]), s[1..]);
        PiecesAreDefinitions(Next(w, s[0]), s[1..]);
        var first := [s[0]] + rest[0];
        assert first[0] == s[0] && first[1..] == rest[0];
        assert Prepend([s[0]], rest)[1..] == rest[1..];
      }
    }
  }

  lemma {:induction false} ClosedSpaces(w: Where, s: string)
    ensures Closed(w, s + " ") <==> Closed(w, s)
    ensures NoComma(w, s + " ") <==> NoComma(w, s)
    decreases |s|
  {
    if s == "" {
      assert (s + " ")[1..] == "";
    } else {
      assert (s + " ")[0] == s[0] && (s + " ")[1..] == s[1..] + " ";
      ClosedSpaces(Next(w, s[0]), s[1..]);
    }
  }

  // The blanks editColumn puts around a definition do not matter.
  lemma PaddedDefinition(s: string)
    ensures OneDefinition(" " + s + " ") <==> OneDefinition(s)
  {
    var t := " " + s + " ";
    assert t[0] == ' ' && t[1..] == s + " ";
    ClosedSpaces(Out(0), s);
  }

  // -- The source's loops -----------------------------------------------------------------

  lemma PrependTwice(a: string, b: string, parts: Parts)
    ensures Prepend(a, Prepend(b, parts)) == Prepend(a + b, parts)
  {
    assert a + (b + parts[0]) == a + b + parts[0];
  }

  function Plus(n: nat, m: Option<nat>): Option<nat> {
    if m.Some? then Some(n + m.value) else None
  }

  // At a quote that is not doubled, the string is over.
  lemma StringOver(d: int, s: string)
    requires s == "" || s[0] != '\''
    ensures SplitFrom(Maybe(d), s) == SplitFrom(Out(d), s)
    ensures InnerLength(Maybe(d), s) == InnerLength(Out(d), s)
  {
  }

  // One character read at i.
  lemma ReadAt(w: Where, s: string, i: nat)
    requires i < |s|
    ensures SplitFrom(w, s[i..]) == if s[i] == ',' && Top(w) then [""] + SplitFrom(Out(0), s[i + 1..])
                                    else Prepend(s[i..i + 1], SplitFrom(Next(w, s[i]), s[i + 1..]))
    ensures InnerLength(w, s[i..]) == if s[i] == ')' && Top(w) then Some(0)
                                      else Plus(1, InnerLength(Next(w, s[i]), s[i + 1..]))
  {
    var t := s[i..];
    ReadFirst(w, t);
    assert t[0] == s[i] && t[1..] == s[i + 1..] && [t[0]] == s[i..i + 1];
  }

  lemma ReadFirst(w: Where, t: string)
    requires t != ""
    ensures SplitFrom(w, t) == if t[0] == ',' && Top(w) then [""] + SplitFrom(Out(0), t[1..])
                               else Prepend([t[0]], SplitFrom(Next(w, t[0]), t[1..]))
    ensures InnerLength(w, t) == if t[0] == ')' && Top(w) then Some(0)
                                 else Plus(1, InnerLength(Next(w, t[0]), t[1..]))
  {
  }

  // Reading s[i..j] in state w leaves it whole and leads to Out(d) at j.
  ghost predicate Reads(s: string, w: Where, i: nat, j: nat, d: int) {
    && i <= j <= |s|
    && SplitFrom(w, s[i..]) == Prepend(s[i..j], SplitFrom(Out(d), s[j..]))
    && InnerLength(w, s[i..]) == Plus(j - i, InnerLength(Out(d), s[j..]))
  }

  lemma ReadsOneMore(s: string, w: Where, i: nat, j: nat, d: int)
    requires i < |s| && (w.In? || s[i] == '\'')
    requires Reads(s, Next(w, s[i]), i + 1, j, d)
    ensures Reads(s, w, i, j, d)
  {
    ReadAt(w, s, i);
    Joined(s, i, j, SplitFrom(w, s[i..]), SplitFrom(Next(w, s[i]), s[i + 1..]), SplitFrom(Out(d), s[j..]));
  }

  lemma Joined(s: string, i: nat, j: nat, here: Parts, next: Parts, last: Parts)
    requires i < j <= |s| && here == Prepend(s[i..i + 1], next) && next == Prepend(s[i + 1..j], last)
    ensures here == Prepend(s[i..j], last)
  {
    KeepGoing(s, i, i + 1, j, last);
  }

  // Skipping a string ahead changes neither where the text is cut nor where it closes.
  lemma {:induction false} StringRun(s: string, j: nat, d: int)
    requires j <= |s|
    ensures Reads(s, In(d), j, SkipQuoted(s, j, '\''), d)
    decreases |s| - j
  {
    if j == |s| {
      assert s[j..] == "" && s[j..j] == "";
      PrependNothing([""]);
    } else if s[j] != '\'' {
      StringRun(s, j + 1, d);
      ReadsOneMore(s, In(d), j, SkipQuoted(s, j, '\''), d);
    } else if j + 1 < |s| && s[j + 1] == '\'' {
      StringRun(s, j + 2, d);
      DoubledQuote(s, j, SkipQuoted(s, j + 2, '\''), d);
    } else {
      assert s[j + 1..] == "" || s[j + 1..][0] == s[j + 1];
      StringOver(d, s[j + 1..]);
      ReadAt(In(d), s, j);
    }
  }

  lemma DoubledQuote(s: string, j: nat, e: nat, d: int)
    requires j + 1 < |s| && s[j] == s[j + 1] == '\'' && Reads(s, In(d), j + 2, e, d)
    ensures Reads(s, In(d), j, e, d)
  {
    ReadsOneMore(s, Maybe(d), j + 1, e, d);
    ReadsOneMore(s, In(d), j, e, d);
  }

  lemma StringFromCode(s: string, i: nat, d: int)
    requires i < |s| && s[i] == '\''
    ensures Reads(s, Out(d), i, SkipQuoted(s, i + 1, '\''), d)
  {
    StringRun(s, i + 1, d);
    ReadsOneMore(s, Out(d), i, SkipQuoted(s, i + 1, '\''), d);
  }

  lemma KeepGoing(s: string, start: nat, i: nat, j: nat, parts: seq<string>)
    requires start <= i <= j <= |s| && parts != []
    ensures Prepend(s[start..i], Prepend(s[i..j], parts)) == Prepend(s[start..j], parts)
  {
    PrependTwice(s[start..i], s[i..j], parts);
    assert s[start..i] + s[i..j] == s[start..j];
  }

  lemma PrependNothing(parts: Parts)
    ensures Prepend("", parts) == parts
  {
    assert "" + parts[0] == parts[0] && parts == [parts[0]] + parts[1..];
  }

  lemma PrependCut(text: string, rest: seq<string>)
    ensures Prepend(text, [""] + rest) == [text] + rest
  {
    assert text + "" == text && ([""] + rest)[1..] == rest;
  }

  // Where one turn of either loop goes from i at a depth, and the depth there.
  function TurnEnd(s: string, i: nat): (r: nat)
    requires i < |s|
    ensures i < r <= |s|
  {
    if s[i] == '\'' then SkipQuoted(s, i + 1, '\'') else i + 1
  }

  function TurnDepth(c: char, depth: int): int {
    if c == '(' then depth + 1 else if c == ')' then depth - 1 else depth
  }

  // What splitTopLevel has found so far, when it is at i in the piece that began at start.
  ghost predicate SplitSoFar(s: string, out: seq<string>, start: nat, i: nat, depth: int) {
    start <= i <= |s| && out + Prepend(s[start..i], SplitFrom(Out(depth), s[i..])) == SplitTopLevel(s)
  }

  lemma SplitGoesOn(s: string, out: seq<string>, start: nat, i: nat, depth: int)
    requires i < |s| && SplitSoFar(s, out, start, i, depth) && !(s[i] == ',' && depth == 0)
    ensures SplitSoFar(s, out, start, TurnEnd(s, i), TurnDepth(s[i], depth))
  {
    var j, d := TurnEnd(s, i), TurnDepth(s[i], depth);
    if s[i] == '\'' { StringFromCode(s, i, depth); } else { ReadAt(Out(depth), s, i); }
    KeepGoing(s, start, i, j, SplitFrom(Out(d), s[j..]));
  }

  lemma SplitCuts(s: string, out: seq<string>, start: nat, i: nat)
    requires i < |s| && SplitSoFar(s, out, start, i, 0) && s[i] == ','
    ensures SplitSoFar(s, out + [s[start..i]], i + 1, i + 1, 0)
  {
    ReadAt(Out(0), s, i);
    var rest := SplitFrom(Out(0), s[i + 1..]);
    PrependCut(s[start..i], rest);
    PrependNothing(rest);
    assert s[i + 1..i + 1] == "" && out + ([s[start..i]] + rest) == (out + [s[start..i]]) + rest;
  }

  lemma SplitStarts(s: string)
    ensures SplitSoFar(s, [], 0, 0, 0)
  {
    assert s[0..] == s && s[0..0] == "";
    PrependNothing(SplitTopLevel(s));
  }

  lemma SplitEnds(s: string, out: seq<string>, start: nat, depth: int)
    requires SplitSoFar(s, out, start, |s|, depth)
    ensures out + [s[start..]] == SplitTopLevel(s)
  {
    assert s[start..|s|] == s[start..] && s[|s|..] == "";
    PrependCut(s[start..], []);
  }

  method SplitTopLevelLoop(s: string) returns (out: seq<string>)
    ensures out == SplitTopLevel(s)
  {
    out := [];
    var depth, start, i := 0, 0, 0;
    SplitStarts(s);
    while i < |s|
      invariant SplitSoFar(s, out, start, i, depth)
    {
      if s[i] == ',' && depth == 0 {
        SplitCuts(s, out, start, i);
        out := out + [s[start..i]];
        start := i + 1;
        i := i + 1;
        continue;
      }
      SplitGoesOn(s, out, start, i, depth);
      if s[i] == '\'' {
        i := SkipQuotedLoop(s, i, '\'');
      } else {
        if s[i] == '(' {
          depth := depth + 1;
        } else if s[i] == ')' {
          depth := depth - 1;
        }
        i := i + 1;
      }
    }
    SplitEnds(s, out, start, depth);
    out := out + [s[start..]];
  }

  // What balancedParen knows at i: where the list closes, seen from its start.
  ghost predicate SearchSoFar(s: string, open: nat, i: nat, depth: int) {
    && open < i <= |s|
    && InnerLength(Out(0), s[open + 1..]) == Plus(i - open - 1, InnerLength(Out(depth - 1), s[i..]))
  }

  lemma SearchGoesOn(s: string, open: nat, i: nat, depth: int)
    requires i < |s| && SearchSoFar(s, open, i, depth)
    ensures s[i] == ')' && depth == 1 ==> InnerLength(Out(0), s[open + 1..]) == Some(i - open - 1)
    ensures s[i] != ')' || depth != 1 ==> SearchSoFar(s, open, TurnEnd(s, i), TurnDepth(s[i], depth))
  {
    var here, j := InnerLength(Out(depth - 1), s[i..]), TurnEnd(s, i);
    TurnInside(s, i, depth - 1, here);
    if s[i] != ')' || depth != 1 {
      PlusTwice(i - open - 1, j - i, InnerLength(Out(TurnDepth(s[i], depth) - 1), s[j..]));
    }
  }

  lemma PlusTwice(a: nat, b: nat, m: Option<nat>)
    ensures Plus(a, Plus(b, m)) == Plus(a + b, m)
  {
  }

  lemma SearchStarts(s: string, open: nat)
    requires open < |s|
    ensures SearchSoFar(s, open, open + 1, 1)
  {
    var n := InnerLength(Out(0), s[open + 1..]);
    assert Plus(0, n) == n;
  }

  lemma SearchEnds(s: string, open: nat, depth: int)
    requires SearchSoFar(s, open, |s|, depth)
    ensures InnerLength(Out(0), s[open + 1..]).None?
  {
    assert s[|s|..] == "";
  }

  lemma StringInside(s: string, i: nat, d: int)
    requires i < |s| && s[i] == '\''
    ensures InnerLength(Out(d), s[i..]) == Plus(TurnEnd(s, i) - i, InnerLength(Out(d), s[TurnEnd(s, i)..]))
  {
    StringFromCode(s, i, d);
  }

  lemma TurnInside(s: string, i: nat, d: int, here: Option<nat>)
    requires i < |s| && here == InnerLength(Out(d), s[i..])
    ensures s[i] == ')' && d == 0 ==> here == Some(0)
    ensures s[i] != ')' || d != 0 ==>
              here == Plus(TurnEnd(s, i) - i, InnerLength(Out(TurnDepth(s[i], d + 1) - 1), s[TurnEnd(s, i)..]))
  {
    if s[i] == '\'' {
      StringInside(s, i, d);
    } else {
      ReadAt(Out(d), s, i);
      assert Next(Out(d), s[i]) == Out(TurnDepth(s[i], d + 1) - 1);
    }
  }

  // The text between the parenthesis at `open` and the one that closes it, and the index past
  // that one; everything to the end when none does.
  method BalancedParen(s: string, open: nat) returns (inner: string, after: nat)
    requires open < |s| && s[open] == '('
    ensures var n := InnerLength(Out(0), s[open + 1..]);
            if n.Some? then inner == s[open + 1..open + 1 + n.value] && after == open + 1 + n.value + 1
            else inner == s[open + 1..] && after == |s|
  {
    var depth, i := 1, open + 1;
    SearchStarts(s, open);
    while i < |s|
      invariant SearchSoFar(s, open, i, depth)
    {
      SearchGoesOn(s, open, i, depth);
      if s[i] == '\'' {
        i := SkipQuotedLoop(s, i, '\'');
      } else {
        if s[i] == '(' {
          depth := depth + 1;
        } else if s[i] == ')' {
          depth := depth - 1;
          if depth == 0 {
            return s[open + 1..i], i + 1;
          }
        }
        i := i + 1;
      }
    }
    SearchEnds(s, open, depth);
    return s[open + 1..], |s|;
  }
}
