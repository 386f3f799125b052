/**
 Which pieces of a Query message the splitter drops: those of white space, semicolons and comments
 alone (isBlankStatement and executableStart in protocol/postgres/blank.go).
 */
module BlankStatements {
  import opened Text
  import opened SqlScan
  import opened SqlAutomaton

  predicate Inside(st: Lex) { st.Line? || st.Block? }

  // The character at k belongs to a comment, be it the first or the second of its opening.
  predicate InComment(s: string, k: nat)
    requires k < |s|
  {
    || Inside(StateAt(s, k, true)) || Inside(StateAt(s, k + 1, true))
    || (k + 2 <= |s| && Inside(StateAt(s, k + 2, true)))
  }

  // It is white space, a semicolon, or part of a comment.
  predicate Nothing(s: string, k: nat)
    requires k < |s|
  {
    IsSpace(s[k]) || s[k] == ';' || InComment(s, k)
  }

  // Where the search for something executable may stand.
  ghost predicate Outside(s: string, i: nat) { i <= |s| && Settled(s, i, true) && !StateAt(s, i, true).Block? }

  ghost predicate NothingFrom(s: string, i: nat) {
    (forall k | i <= k < |s| :: Nothing(s, k)) && !StateAt(s, |s|, true).Block?
  }

  lemma PlainTurn(s: string, i: nat)
    requires i < |s| && Outside(s, i) && (IsSpace(s[i]) || s[i] == ';')
    ensures ExecutableStart(s, i) == ExecutableStart(s, i + 1)
    ensures Outside(s, i + 1) && (NothingFrom(s, i) <==> NothingFrom(s, i + 1))
  {
    JumpsAgree(s, i, true);
    AtTwo(s, i, '-', '-');
    AtTwo(s, i, '/', '*');
  }

  lemma LineTurn(s: string, i: nat)
    requires i < |s| && Outside(s, i) && At(s, i, "--")
    ensures var n := SkipLine(s, i + 2);
            && ExecutableStart(s, i) == ExecutableStart(s, n)
            && Outside(s, n) && (NothingFrom(s, i) <==> NothingFrom(s, n))
  {
    AtTwo(s, i, '-', '-');
    assert StateAt(s, i + 1, true) == Dash;
    assert StateAt(s, i + 2, true) == Line;
    LineRun(s, i + 2, true);
  }

  lemma BlockComment(s: string, i: nat)
    requires i < |s| && Outside(s, i) && At(s, i, "/*")
    ensures var (n, closed) := SkipBlock(s, i, 0);
            if closed then
              && ExecutableStart(s, i) == ExecutableStart(s, n)
              && Outside(s, n) && (NothingFrom(s, i) <==> NothingFrom(s, n))
            else ExecutableStart(s, i) == i && !NothingFrom(s, i)
  {
    AtTwo(s, i, '/', '*');
    AtTwo(s, i, '-', '-');
    assert StateAt(s, i + 1, true) == Slash;
    assert StateAt(s, i + 2, true) == Block(1, NONE);
    BlockRun(s, i + 2, 1, true);
  }

  lemma NoCommentOpens(s: string, i: nat)
    requires i < |s| && (StateAt(s, i + 1, true) == CodeStep(s, i, true) || StateAt(s, i + 1, true).Tag?)
    requires !At(s, i, "--") && !At(s, i, "/*")
    ensures !Inside(StateAt(s, i + 1, true)) && (i + 2 <= |s| ==> !Inside(StateAt(s, i + 2, true)))
  {
    AtTwo(s, i, '-', '-');
    AtTwo(s, i, '/', '*');
  }

  lemma ReadAsCode(s: string, i: nat)
    requires i < |s| && Outside(s, i) && !At(s, i, "--") && !At(s, i, "/*")
    ensures InCode(StateAt(s, i, true))
    ensures StateAt(s, i + 1, true) == CodeStep(s, i, true) || StateAt(s, i + 1, true).Tag?
  {
    AtTwo(s, i, '-', '-');
    AtTwo(s, i, '/', '*');
  }

  lemma Executable(s: string, i: nat)
    requires i < |s| && Outside(s, i) && !IsSpace(s[i]) && s[i] != ';' && !At(s, i, "--") && !At(s, i, "/*")
    ensures ExecutableStart(s, i) == i && !NothingFrom(s, i)
  {
    ReadAsCode(s, i);
    NoCommentOpens(s, i);
    assert !Nothing(s, i);
  }

  lemma {:induction false} NothingExactly(s: string, i: nat)
    requires Outside(s, i)
    ensures ExecutableStart(s, i) == |s| <==> NothingFrom(s, i)
    decreases |s| - i
  {
    if i == |s| {
    } else if IsSpace(s[i]) || s[i] == ';' {
      PlainTurn(s, i);
      NothingExactly(s, i + 1);
    } else if At(s, i, "--") {
      LineTurn(s, i);
      NothingExactly(s, SkipLine(s, i + 2));
    } else if At(s, i, "/*") {
      BlockComment(s, i);
      if SkipBlock(s, i, 0).1 { NothingExactly(s, SkipBlock(s, i, 0).0); }
    } else {
      Executable(s, i);
    }
  }

  // Just the pieces of white space, semicolons and comments are dropped, when a comment left open at
  // their end is a line comment.
  lemma BlankExactly(s: string)
    ensures IsBlankStatement(s) <==>
      && (forall k | 0 <= k < |s| :: Nothing(s, k))
      && !StateAt(s, |s|, true).Block?
  {
    NothingExactly(s, 0);
  }
}
