/**
 What the splitter promises about its pieces: nothing is lost, and each kept piece is one
 statement by itself.
 */
module SplitTheorems {
  import opened Options
  import opened Text
  import opened SqlScan
  import opened SqlAutomaton
  import opened OpenBodies
  import opened SplitStatements

  // The raw pieces joined by the semicolons that cut them are the text.
  lemma {:induction false} PiecesRejoin(s: string, start: nat, i: nat)
    requires start <= i <= |s|
    ensures Join(Pieces(s, start, i), ";") == s[start..]
    decreases |s| - i
  {
    if i < |s| {
      if IsCut(s, start, i) {
        PiecesRejoin(s, i + 1, i + 1);
        var rest := Pieces(s, i + 1, i + 1);
        assert ([s[start..i]] + rest)[1..] == rest;
        assert s[start..] == s[start..i] + ";" + s[i + 1..];
      } else {
        PiecesRejoin(s, start, i + 1);
      }
    }
  }

  // -- A piece by itself ----------------------------------------------------------------

  // s[a..b] begins in code, right after white space or a semicolon, and no statement ends in it.
  ghost predicate IsPiece(s: string, a: nat, b: nat) {
    && a <= b <= |s|
    && StateAt(s, a, true) == Code
    && (a > 0 ==> IsSpace(s[a - 1]) || s[a - 1] == ';')
    && forall k | a <= k < b && Semicolon(s, k) :: OpenBody(s[a..k])
  }

  lemma SemicolonLeavesCode(s: string, i: nat)
    requires i < |s| && Semicolon(s, i)
    ensures StateAt(s, i + 1, true) == Code
  {
  }

  lemma PieceGrows(s: string, start: nat, i: nat)
    requires i < |s| && IsPiece(s, start, i) && !IsCut(s, start, i)
    ensures IsPiece(s, start, i + 1)
  {
  }

  lemma PieceBegins(s: string, i: nat)
    requires i < |s| && Semicolon(s, i)
    ensures IsPiece(s, i + 1, i + 1)
  {
    SemicolonLeavesCode(s, i);
  }

  // Every piece the splitter makes is one.
  lemma {:induction false} PieceOf(s: string, start: nat, i: nat, n: nat) returns (a: nat, b: nat)
    requires start <= i <= |s| && IsPiece(s, start, i)
    requires n < |Pieces(s, start, i)|
    ensures IsPiece(s, a, b) && Pieces(s, start, i)[n] == s[a..b]
    decreases |s| - i
  {
    if i == |s| {
      a, b := start, i;
    } else if IsCut(s, start, i) {
      PieceBegins(s, i);
      if n == 0 {
        a, b := start, i;
      } else {
        a, b := PieceOf(s, i + 1, i + 1, n - 1);
      }
    } else {
      PieceGrows(s, start, i);
      a, b := PieceOf(s, start, i + 1, n);
    }
  }

  // Leading white space is not part of the statement.

  lemma {:induction false} LeadingSpaceIsCode(s: string, a: nat, m: nat)
    requires a <= m <= |s| && StateAt(s, a, true) == Code && Blank(s[a..m])
    ensures StateAt(s, m, true) == Code
    decreases m - a
  {
    if a < m {
      assert IsSpace(s[a..m][0]) && s[a..m][0] == s[a];
      assert s[a..m][1..] == s[a + 1..m];
      assert StateAt(s, a + 1, true) == Code;
      LeadingSpaceIsCode(s, a + 1, m);
    }
  }

  // -- OpenBody ignores leading white space ------------------------------------------------
  // Where a statement begins depends on the text from the index on only.

  lemma {:induction false} LineTail(s: string, i: nat, t: string, j: nat)
    requires SameTail(s, i, t, j)
    ensures SkipLine(s, i) - i == SkipLine(t, j) - j
    decreases |s| - i
  {
    if i < |s| {
      SameTailStep(s, i, t, j, 1);
      if s[i] != '\n' {
        LineTail(s, i + 1, t, j + 1);
      }
    }
  }

  lemma AtTail(s: string, i: nat, t: string, j: nat, pat: string)
    requires SameTail(s, i, t, j)
    ensures At(s, i, pat) == At(t, j, pat)
  {
    assert |s| - i == |t| - j;
    if i + |pat| <= |s| {
      assert s[i..i + |pat|] == s[i..][..|pat|] == t[j..][..|pat|] == t[j..j + |pat|];
    }
  }

  lemma {:induction false} BlockTail(s: string, i: nat, t: string, j: nat, depth: int)
    requires SameTail(s, i, t, j)
    ensures SkipBlock(s, i, depth).0 - i == SkipBlock(t, j, depth).0 - j
    ensures SkipBlock(s, i, depth).1 == SkipBlock(t, j, depth).1
    decreases |s| - i
  {
    AtTail(s, i, t, j, "/*");
    AtTail(s, i, t, j, "*/");
    if i == |s| {
    } else if At(s, i, "/*") {
      SameTailStep(s, i, t, j, 2);
      BlockTail(s, i + 2, t, j + 2, depth + 1);
    } else if At(s, i, "*/") {
      SameTailStep(s, i, t, j, 2);
      if depth - 1 != 0 { BlockTail(s, i + 2, t, j + 2, depth - 1); }
    } else {
      SameTailStep(s, i, t, j, 1);
      BlockTail(s, i + 1, t, j + 1, depth);
    }
  }

  // How far executableStart goes in one turn, where it goes on.
  function StartTurn(s: string, i: nat): (n: Option<nat>)
    requires i < |s|
    ensures n.Some? ==> 0 < n.value <= |s| - i
  {
    if IsSpace(s[i]) || s[i] == ';' then Some(1)
    else if At(s, i, "--") then Some(SkipLine(s, i + 2) - i)
    else if At(s, i, "/*") && SkipBlock(s, i, 0).1 then Some(SkipBlock(s, i, 0).0 - i)
    else None
  }

  lemma StartTurns(s: string, i: nat, n: Option<nat>)
    requires i < |s| && n == StartTurn(s, i)
    ensures ExecutableStart(s, i) == if n.Some? then ExecutableStart(s, i + n.value) else i
  {
  }

  lemma StartTurnTail(s: string, i: nat, t: string, j: nat)
    requires i < |s| && j < |t| && SameTail(s, i, t, j)
    ensures StartTurn(s, i) == StartTurn(t, j)
  {
    SameTailStep(s, i, t, j, 1);
    AtTail(s, i, t, j, "--");
    AtTail(s, i, t, j, "/*");
    BlockTail(s, i, t, j, 0);
    if At(s, i, "--") {
      SameTailStep(s, i, t, j, 2);
      LineTail(s, i + 2, t, j + 2);
    }
  }

  // One turn in both texts, with what follows it.
  lemma StartTurnsTail(s: string, i: nat, t: string, j: nat) returns (n: Option<nat>)
    requires i < |s| && SameTail(s, i, t, j)
    ensures n.Some? ==> 0 < n.value && i + n.value <= |s| && SameTail(s, i + n.value, t, j + n.value)
    ensures j < |t| && ExecutableStart(s, i) == if n.None? then i else ExecutableStart(s, i + n.value)
    ensures ExecutableStart(t, j) == if n.None? then j else ExecutableStart(t, j + n.value)
  {
    StartTurnTail(s, i, t, j);
    n := StartTurn(s, i);
    StartTurns(s, i, n);
    StartTurns(t, j, n);
    if n.Some? { TailMoves(s, i, t, j, n.value); }
  }

  lemma NoTurns(s: string, i: nat, t: string, j: nat)
    requires SameTail(s, i, t, j) && i == |s|
    ensures ExecutableStart(s, i) == i && j == |t| && ExecutableStart(t, j) == j
  {
    assert |s| - i == |t| - j;
  }

  // The same text further on begins as far on in both.
  lemma {:induction false} StartTail(s: string, i: nat, t: string, j: nat) returns (d: nat)
    requires SameTail(s, i, t, j)
    ensures ExecutableStart(s, i) == i + d
    ensures ExecutableStart(t, j) == j + d
    decreases |s| - i
  {
    if i == |s| {
      NoTurns(s, i, t, j);
      d := 0;
    } else {
      d := StartGoesOn(s, i, t, j);
    }
  }

  lemma {:induction false} StartGoesOn(s: string, i: nat, t: string, j: nat) returns (d: nat)
    requires i < |s| && SameTail(s, i, t, j)
    ensures ExecutableStart(s, i) == i + d
    ensures ExecutableStart(t, j) == j + d
    decreases |s| - i, 0
  {
    var n := StartTurnsTail(s, i, t, j);
    d := 0;
    if n.Some? {
      var d' := StartTail(s, i + n.value, t, j + n.value);
      d := n.value + d';
    }
  }

  lemma OpenBodyPastSpace(s: string)
    requires s != "" && IsSpace(s[0])
    ensures OpenBody(s) == OpenBody(s[1..])
  {
    HeadPastSpace(s);
    OpenBodyCounts(s);
    OpenBodyCounts(s[1..]);
    EndPastSpace(s);
    WordsPastSpace(s, "begin");
    WordsPastSpace(s, "case");
    WordsPastSpace(s, "end");
  }

  lemma EndPastSpace(s: string)
    requires s != "" && IsSpace(s[0])
    ensures StateAt(s[1..], |s[1..]|, false) == StateAt(s, |s|, false)
  {
    assert s[1..] == s[1..|s|];
    SameStates(s, 1, |s|, |s| - 1, false);
  }

  lemma HeadPastSpace(s: string)
    requires s != "" && IsSpace(s[0])
    ensures s[ExecutableStart(s, 0)..] == s[1..][ExecutableStart(s[1..], 0)..]
  {
    assert SameTail(s, 1, s[1..], 0);
    var d := StartTail(s, 1, s[1..], 0);
  }

  lemma WordsPastSpace(s: string, w: string)
    requires s != "" && IsSpace(s[0]) && IsWord(w)
    ensures Words(s, w, 0, |s|, false) == Words(s[1..], w, 0, |s| - 1, false)
  {
    assert s[1..] == s[1..|s|];
    PieceWords(s, 1, |s|, w, 0, false);
    if |w| <= |s| { NotTheWord(s, 0, w, 0); }
  }

  lemma {:induction false} OpenBodyPastBlank(s: string, m: nat)
    requires m <= |s| && Blank(s[..m])
    ensures OpenBody(s) == OpenBody(s[m..])
    decreases m
  {
    if m > 0 {
      assert s[..m][0] == s[0] && s[..m][1..] == s[1..][..m - 1] && s[m..] == s[1..][m - 1..];
      OpenBodyPastSpace(s);
      OpenBodyPastBlank(s[1..], m - 1);
    }
  }

  // -- Trimming does not make a statement blank ----------------------------------------------

  lemma {:induction false} AllSpaceIsBlank(s: string, i: nat)
    requires i <= |s| && forall k | i <= k < |s| :: IsSpace(s[k])
    ensures ExecutableStart(s, i) == |s|
    decreases |s| - i
  {
    if i < |s| { AllSpaceIsBlank(s, i + 1); }
  }

  lemma {:induction false} LinePrefix(p: string, w: string, j: nat)
    requires j <= |p|
    ensures SkipLine(p + w, j) == SkipLine(p, j) || (SkipLine(p, j) == |p| <= SkipLine(p + w, j))
    decreases |p| - j
  {
    if j < |p| {
      assert (p + w)[j] == p[j];
      LinePrefix(p, w, j + 1);
    }
  }

  lemma AtPrefix(p: string, w: string, j: nat, pat: string)
    requires j + |pat| <= |p|
    ensures At(p + w, j, pat) == At(p, j, pat)
  {
    assert (p + w)[j..j + |pat|] == p[j..j + |pat|];
  }

  lemma {:induction false} BlockPrefix(p: string, w: string, j: nat, depth: int)
    requires j <= |p| && SkipBlock(p, j, depth).1
    ensures SkipBlock(p + w, j, depth) == SkipBlock(p, j, depth)
    decreases |p| - j
  {
    if j + 2 <= |p| {
      AtPrefix(p, w, j, "/*");
      AtPrefix(p, w, j, "*/");
      if At(p, j, "/*") {
        BlockPrefix(p, w, j + 2, depth + 1);
      } else if At(p, j, "*/") {
        if depth - 1 != 0 { BlockPrefix(p, w, j + 2, depth - 1); }
      } else {
        BlockPrefix(p, w, j + 1, depth);
      }
    }
  }

  lemma {:induction false} BlankPrefix(p: string, w: string, i: nat)
    requires i <= |p| && ExecutableStart(p, i) == |p| && Blank(w)
    ensures ExecutableStart(p + w, i) == |p + w|
    decreases |p| - i
  {
    if i == |p| {
      AllSpaceIsBlank(p + w, i);
    } else {
      StartTurns(p, i, StartTurn(p, i));
      assert (p + w)[i] == p[i];
      if IsSpace(p[i]) || p[i] == ';' {
        BlankPrefix(p, w, i + 1);
      } else if At(p, i, "--") {
        AtPrefix(p, w, i, "--");
        LinePrefix(p, w, i + 2);
        var e := SkipLine(p + w, i + 2);
        if e == SkipLine(p, i + 2) {
          BlankPrefix(p, w, e);
        } else {
          AllSpaceIsBlank(p + w, e);
        }
      } else {
        AtPrefix(p, w, i, "--");
        AtPrefix(p, w, i, "/*");
        BlockPrefix(p, w, i, 0);
        BlankPrefix(p, w, SkipBlock(p, i, 0).0);
      }
    }
  }

  lemma TrimKeepsExecutable(s: string)
    requires !IsBlankStatement(s)
    ensures !IsBlankStatement(TrimSpace(s))
  {
    var a, b := TrimParts(s);
    var p := s[a..b];
    if IsBlankStatement(p) {
      BlankPrefix(p, s[b..], 0);
      assert p + s[b..] == s[a..];
      assert SameTail(s, a, s[a..], 0);
      var d := StartTail(s, a, s[a..], 0);
      SpacesFirst(s, 0, a);
    }
  }

  lemma {:induction false} SpacesFirst(s: string, i: nat, m: nat)
    requires i <= m <= |s| && Blank(s[..m])
    ensures ExecutableStart(s, i) == ExecutableStart(s, m)
    decreases m - i
  {
    if i < m {
      assert s[..m][i] == s[i];
      SpacesFirst(s, i + 1, m);
    }
  }

  // -- The theorem --------------------------------------------------------------------------

  lemma {:induction false} WholePiece(p: string, i: nat)
    requires i <= |p| && forall k | i <= k < |p| :: !IsCut(p, 0, k)
    ensures Pieces(p, 0, i) == [p]
    decreases |p| - i
  {
    if i < |p| { WholePiece(p, i + 1); } else { assert p[0..] == p; }
  }

  lemma {:induction false} KeptOne(pieces: seq<string>, p: string) returns (n: nat)
    requires p in Kept(pieces)
    ensures n < |pieces| && !IsBlankStatement(pieces[n]) && p == TrimSpace(pieces[n])
    decreases |pieces|
  {
    if p in Keep(pieces[0]) {
      n := 0;
    } else {
      var m := KeptOne(pieces[1..], p);
      n := m + 1;
    }
  }

  lemma BlankBefore(s: string, a: nat, b: nat)
    requires a <= b <= |s| && Blank(s[a..b])
    ensures a < b ==> IsSpace(s[b - 1])
  {
    if a < b {
      var c := s[a..b][b - a - 1];
      assert c in s[a..b] && c == s[b - 1];
    }
  }

  lemma PrefixParts(s: string, a: nat, b: nat, k: nat)
    requires a <= b <= k <= |s|
    ensures s[a..k][..b - a] == s[a..b] && s[a..k][b - a..] == s[b..k]
  {
  }

  // Trimmed, a piece of the text is still a piece of it.
  lemma TrimmedPiece(s: string, a: nat, b: nat) returns (a': nat, b': nat)
    requires IsPiece(s, a, b)
    ensures IsPiece(s, a', b') && s[a'..b'] == TrimSpace(s[a..b])
  {
    a', b' := TrimSlices(s, a, b);
    LeadingSpaceIsCode(s, a, a');
    BlankBefore(s, a, a');
    forall k | a' <= k < b' && Semicolon(s, k) ensures OpenBody(s[a'..k]) {
      StillOpen(s, a, a', k);
    }
  }

  lemma TrimSlices(s: string, a: nat, b: nat) returns (a': nat, b': nat)
    requires a <= b <= |s|
    ensures a <= a' <= b' <= b && s[a'..b'] == TrimSpace(s[a..b]) && Blank(s[a..a'])
  {
    var m, n := TrimParts(s[a..b]);
    a', b' := a + m, a + n;
    PrefixParts(s, a, a', b);
    SliceOfSlice(s, a, b, m, n);
  }

  lemma StillOpen(s: string, a: nat, a': nat, k: nat)
    requires a <= a' <= k <= |s| && Blank(s[a..a'])
    ensures OpenBody(s[a'..k]) == OpenBody(s[a..k])
  {
    PrefixParts(s, a, a', k);
    OpenBodyPastBlank(s[a..k], a' - a);
  }

  // Each statement the splitter returns splits to itself alone.
  lemma EachStatementIsOne(s: string, p: string)
    requires p in Split(s)
    ensures Split(p) == [p]
  {
    var n := KeptOne(Pieces(s, 0, 0), p);
    var a, b := PieceOf(s, 0, 0, n);
    TrimKeepsExecutable(s[a..b]);
    TrimIdempotent(s[a..b]);
    a, b := TrimmedPiece(s, a, b);
    forall k | 0 <= k < |p| ensures !IsCut(p, 0, k) {
      SameStates(s, a, b, k, true);
      assert p[k] == s[a + k] && p[0..k] == s[a..a + k];
    }
    WholePiece(p, 0);
    assert Kept([p]) == Keep(p) + Kept([p][1..]);
  }
}
