/**
 Cutting a Query message into statements (protocol/postgres/multistatement.go:62-106): the
 splitter's loop against the one-character automaton.
 */
module SplitStatements {
  import opened Text
  import opened SqlScan
  import opened SqlAutomaton

  // A semicolon in code ends the statement begun at `start` unless it is inside an open body.
  predicate IsCut(s: string, start: nat, i: nat)
    requires start <= i < |s|
  {
    Semicolon(s, i) && !OpenBody(s[start..i])
  }

  // The pieces from `start` on, when the statement there goes on at least to i.
  function Pieces(s: string, start: nat, i: nat): (r: seq<string>)
    requires start <= i <= |s|
    ensures r != []
    decreases |s| - i
  {
    if i == |s| then [s[start..]]
    else if IsCut(s, start, i) then [s[start..i]] + Pieces(s, i + 1, i + 1)
    else Pieces(s, start, i + 1)
  }

  // Blank pieces are dropped, the others trimmed.
  function Keep(piece: string): seq<string> {
    if IsBlankStatement(piece) then [] else [TrimSpace(piece)]
  }

  function Kept(pieces: seq<string>): seq<string> {
    if pieces == [] then [] else Keep(pieces[0]) + Kept(pieces[1..])
  }

  function Split(s: string): seq<string> { Kept(Pieces(s, 0, 0)) }

  lemma {:induction false} NoCutBetween(s: string, start: nat, i: nat, j: nat)
    requires start <= i <= j <= |s|
    requires forall k | i <= k < j :: !Semicolon(s, k)
    ensures Pieces(s, start, i) == Pieces(s, start, j)
    decreases j - i
  {
    if i < j {
      NoCutBetween(s, start, i + 1, j);
    }
  }

  // The next index of the splitting loop, which has nothing of its own to skip at a semicolon.
  method NextIndex(sql: string, i: nat) returns (j: nat)
    requires i < |sql|
    ensures j == Jump(sql, i, true)
  {
    if sql[i] == '\'' {
      if i > 0 && (sql[i - 1] == 'e' || sql[i - 1] == 'E') && (i < 2 || !IsWordByte(sql[i - 2])) {
        j := SkipEscapeString(sql, i);
      } else {
        j := SkipQuotedLoop(sql, i, '\'');
      }
    } else if sql[i] == '"' {
      j := SkipQuotedLoop(sql, i, '"');
    } else if At(sql, i, "--") {
      LineFromOpening(sql, i);
      j := SkipLine(sql, i);
    } else if At(sql, i, "/*") {
      var end, _ := SkipBlockComment(sql, i);
      j := end;
    } else if sql[i] == '$' {
      var tag := DollarTagLoop(sql, i);
      if tag == "" {
        return i + 1;
      }
      var at := IndexFrom(sql, tag, i + |tag|);
      j := if at.Some? then at.value + |tag| else |sql|;
    } else {
      j := i + 1;
    }
  }

  // The source's `add`.
  method Add(out: seq<string>, piece: string) returns (r: seq<string>)
    ensures r == out + Keep(piece)
  {
    var start := ExecutableStartLoop(piece);
    r := if start == |piece| then out else out + [TrimSpace(piece)];
  }

  lemma KeptCut(s: string, start: nat, i: nat)
    requires start <= i < |s| && IsCut(s, start, i)
    ensures Kept(Pieces(s, start, i)) == Keep(s[start..i]) + Kept(Pieces(s, i + 1, i + 1))
  {
    assert ([s[start..i]] + Pieces(s, i + 1, i + 1))[1..] == Pieces(s, i + 1, i + 1);
  }

  // What one turn of the splitting loop finds at a settled index.
  lemma Turn(s: string, start: nat, i: nat)
    requires start <= i < |s| && Settled(s, i, true)
    ensures Settled(s, Jump(s, i, true), true)
    ensures s[i] == ';' ==> Semicolon(s, i) && Jump(s, i, true) == i + 1
    ensures s[i] != ';' || OpenBody(s[start..i]) ==> Pieces(s, start, i) == Pieces(s, start, Jump(s, i, true))
    ensures s[i] == ';' && !OpenBody(s[start..i]) ==> IsCut(s, start, i)
  {
    JumpsAgree(s, i, true);
    AtTwo(s, i, '-', '-');
    AtTwo(s, i, '/', '*');
    NoSemicolonsSkipped(s, i + 1, Jump(s, i, true));
    if !IsCut(s, start, i) {
      NoCutBetween(s, start, i + 1, Jump(s, i, true));
    }
  }

  // What the splitter has at i, with a statement begun at `start`.
  ghost predicate SplitSoFar(s: string, out: seq<string>, start: nat, i: nat) {
    && start <= i <= |s| && Settled(s, i, true)
    && out + Kept(Pieces(s, start, i)) == Split(s)
  }

  lemma GoesOn(s: string, out: seq<string>, start: nat, i: nat)
    requires i < |s| && SplitSoFar(s, out, start, i)
    ensures s[i] == ';' ==> Jump(s, i, true) == i + 1
    ensures s[i] != ';' || OpenBody(s[start..i]) ==> SplitSoFar(s, out, start, Jump(s, i, true))
    ensures s[i] == ';' && !OpenBody(s[start..i]) ==> SplitSoFar(s, out + Keep(s[start..i]), i + 1, i + 1)
  {
    Turn(s, start, i);
    if s[i] == ';' && !OpenBody(s[start..i]) {
      KeptCut(s, start, i);
      Regrouped(out, Keep(s[start..i]), Kept(Pieces(s, i + 1, i + 1)));
    }
  }

  lemma Regrouped(a: seq<string>, b: seq<string>, c: seq<string>)
    ensures (a + b) + c == a + (b + c)
  {
  }

  lemma SplitEnds(s: string, out: seq<string>, start: nat)
    requires SplitSoFar(s, out, start, |s|)
    ensures out + Keep(s[start..]) == Split(s)
  {
    assert Pieces(s, start, |s|) == [s[start..]];
    OnePiece(s[start..]);
  }

  lemma OnePiece(p: string)
    ensures Kept([p]) == Keep(p)
  {
    assert [p][1..] == [];
    assert Keep(p) + [] == Keep(p);
  }

  // splitStatements: skipping ahead over everything quoted, it cuts where the automaton says.
  method SplitLoop(sql: string) returns (out: seq<string>)
    ensures out == Split(sql)
  {
    out := [];
    var start, i := 0, 0;
    while i < |sql|
      invariant i <= |sql| && SplitSoFar(sql, out, start, i)
    {
      GoesOn(sql, out, start, i);
      if sql[i] == ';' {
        var open := OpenBodyLoop(sql[start..i]);
        if !open {
          out := Add(out, sql[start..i]);
          start := i + 1;
        }
        i := i + 1;
      } else {
        i := NextIndex(sql, i);
      }
    }
    SplitEnds(sql, out, start);
    out := Add(out, sql[start..]);
  }
}
