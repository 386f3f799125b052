/**
 The lexical states of SQL text, one character at a time, and the proof that the scanners' jumps
 agree with them (protocol/postgres/multistatement.go:72-161). The splitter knows E'...' strings;
 the search for an open body takes every apostrophe for a plain quote, which `esc` tells apart.
 */
module SqlAutomaton {
  import opened Text
  import opened SqlScan

  datatype Lex =
    | Code
    | Dash                                // a - that may open a line comment
    | Slash                               // a / that may open a block comment
    | Tag(tag: string)                    // a $ and what follows, so far a dollar tag
    | Quote | QuoteEnd                    // in '...', and at a ' that may be doubled
    | Escape | EscapeNext | EscapeEnd     // in E'...', after a backslash, at a ' that may be doubled
    | Ident | IdentEnd                    // in "...", and at a " that may be doubled
    | Line                                // in a line comment
    | Block(depth: nat, last: char)       // in nested block comments, after `last`
    | Dollar(tag: string, body: string)   // in a dollar-quoted body

  const NONE: char := ' '

  predicate InCode(st: Lex) {
    st.Code? || st.Dash? || st.Slash? || st.Tag? || st.QuoteEnd? || st.EscapeEnd? || st.IdentEnd?
  }

  // An e or E standing by itself before the quote at i.
  predicate EscapePrefix(s: string, i: nat)
    requires i < |s|
  {
    i > 0 && (s[i - 1] == 'e' || s[i - 1] == 'E') && (i < 2 || !IsWordByte(s[i - 2]))
  }

  // s[i] read as code.
  function CodeStep(s: string, i: nat, esc: bool): Lex
    requires i < |s|
  {
    match s[i]
    case '\'' => if esc && EscapePrefix(s, i) then Escape else Quote
    case '"' => Ident
    case '-' => Dash
    case '/' => Slash
    case '$' => if AfterWord(s, i) then Code else Tag("$")
    case _ => Code
  }

  // s[i] read in state st, knowing only the two characters before it.
  function Step(st: Lex, s: string, i: nat, esc: bool): Lex
    requires i < |s|
  {
    var c := s[i];
    match st
    case Code => CodeStep(s, i, esc)
    case Dash => if c == '-' then Line else CodeStep(s, i, esc)
    case Slash => if c == '*' then Block(1, NONE) else CodeStep(s, i, esc)
    case Tag(tag) =>
      if c == '$' then Dollar(tag + "$", "")
      else if IsWordByte(c) && !(|tag| == 1 && IsDigit(c)) then Tag(tag + [c])
      else CodeStep(s, i, esc)
    case Quote => if c == '\'' then QuoteEnd else Quote
    case QuoteEnd => if c == '\'' then Quote else CodeStep(s, i, esc)
    case Escape => if c == '\\' then EscapeNext else if c == '\'' then EscapeEnd else Escape
    case EscapeNext => Escape
    case EscapeEnd => if c == '\'' then Escape else CodeStep(s, i, esc)
    case Ident => if c == '"' then IdentEnd else Ident
    case IdentEnd => if c == '"' then Ident else CodeStep(s, i, esc)
    case Line => if c == '\n' then Code else Line
    case Block(depth, last) =>
      if last == '/' && c == '*' then Block(depth + 1, NONE)
      else if last == '*' && c == '/' then (if depth <= 1 then Code else Block(depth - 1, NONE))
      else Block(depth, c)
    case Dollar(tag, body) =>
      if EndsWith(body + [c], tag) then Code else Dollar(tag, body + [c])
  }

  predicate EndsWith(s: string, t: string) {
    |t| <= |s| && s[|s| - |t|..] == t
  }

  function StateAt(s: string, i: nat, esc: bool): Lex
    requires i <= |s|
  {
    if i == 0 then Code else Step(StateAt(s, i - 1, esc), s, i - 1, esc)
  }

  // A semicolon in code, where a statement may end.
  predicate Semicolon(s: string, i: nat)
    requires i < |s|
  {
    s[i] == ';' && InCode(StateAt(s, i, true))
  }

  // -- The splitter's view: at i it reads code, and nothing before i is still undecided ------

  predicate Settled(s: string, i: nat, esc: bool)
    requires i <= |s|
  {
    i == |s|
    || match StateAt(s, i, esc)
       case Code => true
       case Dash => s[i] != '-'
       case Slash => s[i] != '*'
       case QuoteEnd => s[i] != '\''
       case EscapeEnd => s[i] != '\''
       case IdentEnd => s[i] != '"'
       case Tag(tag) => 0 < |tag| <= i && TagEnd(s, i - |tag|, i).None?
       case _ => false
  }

  // The end of the body of the tag s[i..e], or of the text when it is never closed.
  function BodyStop(s: string, i: nat, e: nat): (r: nat)
    requires i < e <= |s|
    ensures e <= r <= |s|
  {
    if BodyEnd(s, i, e).Some? then BodyEnd(s, i, e).value else |s|
  }

  // The index the scanning loop goes to next from i.
  function Jump(s: string, i: nat, esc: bool): (r: nat)
    requires i < |s|
    ensures i < r <= |s|
  {
    if s[i] == '\'' then (if esc && EscapePrefix(s, i) then SkipEscaped(s, i + 1) else SkipQuoted(s, i + 1, '\''))
    else if s[i] == '"' then SkipQuoted(s, i + 1, '"')
    else if At(s, i, "--") then SkipLine(s, i + 2)
    else if At(s, i, "/*") then SkipBlock(s, i, 0).0
    else if s[i] == '$' && DollarTag(s, i).Some? then
      BodyStop(s, i, DollarTag(s, i).value)
    else i + 1
  }

  // A dollar tag is being read at i, and will end.
  predicate InTag(s: string, i: nat, esc: bool)
    requires i <= |s|
  {
    var st := StateAt(s, i, esc);
    st.Tag? && 0 < |st.tag| <= i && st.tag == s[i - |st.tag|..i] && TagEnd(s, i - |st.tag|, i).Some?
  }

  // The character at i is not read as code, or is part of a dollar tag, or of no word and no semicolon.
  predicate Inert(s: string, i: nat, esc: bool)
    requires i < |s|
  {
    !InCode(StateAt(s, i, esc)) || InTag(s, i, esc) || (s[i] != ';' && !IsWordByte(s[i]))
  }

  // The code has no semicolon and no word in [i, j), and the scanner is back in it at j.
  ghost predicate Skips(s: string, i: nat, j: nat, esc: bool) {
    && i <= j <= |s|
    && Settled(s, j, esc)
    && forall k | i <= k < j :: Inert(s, k, esc)
  }

  lemma {:induction false} QuotedRun(s: string, j: nat, q: char, esc: bool)
    requires j <= |s| && (q == '\'' || q == '"')
    requires StateAt(s, j, esc) == if q == '"' then Ident else Quote
    ensures Skips(s, j, SkipQuoted(s, j, q), esc) && !StateAt(s, SkipQuoted(s, j, q), esc).Dollar?
    decreases |s| - j
  {
    if j < |s| && s[j] != q {
      QuotedRun(s, j + 1, q, esc);
    } else if j + 1 < |s| && s[j + 1] == q {
      assert StateAt(s, j + 1, esc) == if q == '"' then IdentEnd else QuoteEnd;
      assert StateAt(s, j + 2, esc) == StateAt(s, j, esc);
      QuotedRun(s, j + 2, q, esc);
    }
  }

  // One turn inside an E'...' string goes to m, which is past it when that ends there.
  lemma EscapeTurn(s: string, j: nat, esc: bool) returns (m: nat, past: bool)
    requires j < |s| && StateAt(s, j, esc) == Escape
    ensures j < m <= |s| && forall k | j <= k < m :: Inert(s, k, esc)
    ensures SkipEscaped(s, j) == if past then m else SkipEscaped(s, m)
    ensures if past then Settled(s, m, esc) && !StateAt(s, m, esc).Dollar? else StateAt(s, m, esc) == Escape
  {
    m, past := j + 1, false;
    if s[j] == '\\' {
      assert StateAt(s, j + 1, esc) == EscapeNext;
      if j + 1 < |s| { m := j + 2; } else { past := true; }
    } else if s[j] == '\'' {
      assert StateAt(s, j + 1, esc) == EscapeEnd;
      if j + 1 < |s| && s[j + 1] == '\'' { m := j + 2; } else { past := true; }
    }
  }

  lemma {:induction false} EscapedRun(s: string, j: nat, esc: bool)
    requires j <= |s| && StateAt(s, j, esc) == Escape
    ensures Skips(s, j, SkipEscaped(s, j), esc) && !StateAt(s, SkipEscaped(s, j), esc).Dollar?
    decreases |s| - j
  {
    if j < |s| {
      var m, past := EscapeTurn(s, j, esc);
      if !past { EscapedRun(s, m, esc); }
    }
  }

  lemma {:induction false} LineRun(s: string, j: nat, esc: bool)
    requires j <= |s| && StateAt(s, j, esc) == Line
    ensures var n := SkipLine(s, j);
            && (forall k | j <= k < n :: StateAt(s, k, esc) == Line)
            && (StateAt(s, n, esc) == Code || (n == |s| && StateAt(s, n, esc) == Line))
    decreases |s| - j
  {
    if j < |s| && s[j] != '\n' {
      LineRun(s, j + 1, esc);
    }
  }

  lemma AtTwo(s: string, i: nat, a: char, b: char)
    requires i <= |s|
    ensures At(s, i, [a, b]) <==> i + 1 < |s| && s[i] == a && s[i + 1] == b
  {
    if i + 1 < |s| {
      assert s[i..i + 2] == [s[i], s[i + 1]];
    }
  }

  // The block-comment delimiters in last and the character at j do not form a token.
  predicate NoPair(s: string, j: nat, last: char)
    requires j <= |s|
  {
    j < |s| ==> !(last == '/' && s[j] == '*') && !(last == '*' && s[j] == '/')
  }

  ghost predicate InBlock(s: string, j: nat, depth: nat, esc: bool) {
    && j <= |s|
    && StateAt(s, j, esc).Block? && StateAt(s, j, esc).depth == depth && NoPair(s, j, StateAt(s, j, esc).last)
  }

  // One turn inside a block comment goes to m, d deep.
  lemma BlockTurn(s: string, j: nat, depth: nat, esc: bool) returns (m: nat, d: nat)
    requires j < |s| && depth > 0 && InBlock(s, j, depth, esc)
    ensures j < m <= |s| && forall k | j <= k < m :: StateAt(s, k, esc).Block?
    ensures SkipBlock(s, j, depth) == if d == 0 then (m, true) else SkipBlock(s, m, d)
    ensures if d == 0 then StateAt(s, m, esc) == Code else InBlock(s, m, d, esc)
  {
    AtTwo(s, j, '/', '*');
    AtTwo(s, j, '*', '/');
    if At(s, j, "/*") {
      assert StateAt(s, j + 1, esc) == Block(depth, '/');
      assert StateAt(s, j + 2, esc) == Block(depth + 1, NONE);
      m, d := j + 2, depth + 1;
    } else if At(s, j, "*/") {
      assert StateAt(s, j + 1, esc) == Block(depth, '*');
      assert StateAt(s, j + 2, esc) == if depth > 1 then Block(depth - 1, NONE) else Code;
      m, d := j + 2, depth - 1;
    } else {
      assert StateAt(s, j + 1, esc) == Block(depth, s[j]);
      m, d := j + 1, depth;
    }
  }

  lemma {:induction false} BlockRun(s: string, j: nat, depth: nat, esc: bool)
    requires depth > 0 && InBlock(s, j, depth, esc)
    ensures var (n, closed) := SkipBlock(s, j, depth);
            && (forall k | j <= k < n :: StateAt(s, k, esc).Block?)
            && (if closed then StateAt(s, n, esc) == Code else n == |s| && StateAt(s, n, esc).Block?)
    decreases |s| - j
  {
    if j < |s| {
      var m, d := BlockTurn(s, j, depth, esc);
      if d > 0 { BlockRun(s, m, d, esc); }
    }
  }

  // While a dollar tag is being read, up to the $ that ends it.
  lemma {:induction false} TagRun(s: string, start: nat, j: nat, esc: bool)
    requires start < j <= |s| && StateAt(s, j, esc) == Tag(s[start..j]) && TagEnd(s, start, j).Some?
    ensures var e := TagEnd(s, start, j).value;
            StateAt(s, e, esc) == Dollar(s[start..e], "") && forall k | j <= k < e :: InTag(s, k, esc)
    decreases |s| - j
  {
    assert s[start..j + 1] == s[start..j] + [s[j]];
    if s[j] != '$' {
      TagRun(s, start, j + 1, esc);
    }
  }

  // Whether the closing tag of the body that starts at e ends at j.
  predicate ClosesAt(s: string, e: nat, tag: string, j: nat)
    requires j <= |s|
  {
    e + |tag| <= j && At(s, j - |tag|, tag)
  }

  lemma DollarStep(s: string, e: nat, tag: string, j: nat, esc: bool)
    requires e <= j < |s| && StateAt(s, j, esc) == Dollar(tag, s[e..j])
    ensures StateAt(s, j + 1, esc) == if ClosesAt(s, e, tag, j + 1) then Code else Dollar(tag, s[e..j + 1])
  {
    var body := s[e..j] + [s[j]];
    assert body == s[e..j + 1];
    if |tag| <= |body| {
      assert body[|body| - |tag|..] == s[j + 1 - |tag|..j + 1];
    }
  }

  // In a dollar-quoted body, up to where its closing tag can first end.
  lemma {:induction false} DollarRun(s: string, e: nat, tag: string, j: nat, stop: nat, esc: bool)
    requires e <= j < stop <= |s| && StateAt(s, j, esc) == Dollar(tag, s[e..j])
    requires forall k | j < k < stop :: !ClosesAt(s, e, tag, k)
    ensures forall k | j <= k < stop :: StateAt(s, k, esc).Dollar?
    ensures StateAt(s, stop, esc) == if ClosesAt(s, e, tag, stop) then Code else Dollar(tag, s[e..stop])
    decreases stop - j
  {
    DollarStep(s, e, tag, j, esc);
    if j + 1 < stop {
      DollarRun(s, e, tag, j + 1, stop, esc);
    }
  }

  lemma ClosesOnlyAtStop(s: string, i: nat, e: nat, k: nat)
    requires i < e < k <= |s| && k <= BodyStop(s, i, e)
    ensures ClosesAt(s, e, s[i..e], k) <==> k == BodyStop(s, i, e) && BodyEnd(s, i, e).Some?
  {
  }

  lemma BodyRun(s: string, i: nat, e: nat, esc: bool)
    requires i < e <= |s| && StateAt(s, e, esc) == Dollar(s[i..e], "")
    ensures Skips(s, e, BodyStop(s, i, e), esc)
    ensures BodyEnd(s, i, e).Some? <==> !StateAt(s, BodyStop(s, i, e), esc).Dollar?
  {
    var stop := BodyStop(s, i, e);
    assert s[e..e] == "";
    if e < stop {
      forall k | e < k <= stop ensures ClosesAt(s, e, s[i..e], k) <==> k == stop && BodyEnd(s, i, e).Some? {
        ClosesOnlyAtStop(s, i, e, k);
      }
      DollarRun(s, e, s[i..e], e, stop, esc);
    }
  }

  // A dollar-quoted body opens at i and is never closed.
  predicate Unending(s: string, i: nat)
    requires i < |s|
  {
    s[i] == '$' && DollarTag(s, i).Some? && BodyEnd(s, i, DollarTag(s, i).value).None?
  }

  // Where the scanner reads code so does the automaton, and what it jumps over is no code.
  lemma JumpsAgree(s: string, i: nat, esc: bool)
    requires i < |s| && Settled(s, i, esc)
    ensures InCode(StateAt(s, i, esc)) && !InTag(s, i, esc)
    ensures Skips(s, i + 1, Jump(s, i, esc), esc)
    ensures StateAt(s, Jump(s, i, esc), esc).Dollar? <==> Unending(s, i)
  {
    if s[i] == '\'' || s[i] == '"' {
      QuoteJump(s, i, esc);
    } else if s[i] == '-' || s[i] == '/' {
      CommentJump(s, i, esc);
    } else if s[i] == '$' {
      DollarJump(s, i, esc);
    } else {
      AtTwo(s, i, '-', '-');
      AtTwo(s, i, '/', '*');
    }
  }

  lemma QuoteJump(s: string, i: nat, esc: bool)
    requires i < |s| && (s[i] == '\'' || s[i] == '"') && StateAt(s, i + 1, esc) == CodeStep(s, i, esc)
    ensures Skips(s, i + 1, Jump(s, i, esc), esc)
    ensures StateAt(s, Jump(s, i, esc), esc).Dollar? <==> Unending(s, i)
  {
    if esc && s[i] == '\'' && EscapePrefix(s, i) {
      EscapedRun(s, i + 1, esc);
    } else {
      QuotedRun(s, i + 1, s[i], esc);
    }
  }

  lemma CommentJump(s: string, i: nat, esc: bool)
    requires i < |s| && (s[i] == '-' || s[i] == '/') && StateAt(s, i + 1, esc) == CodeStep(s, i, esc)
    ensures Skips(s, i + 1, Jump(s, i, esc), esc)
    ensures StateAt(s, Jump(s, i, esc), esc).Dollar? <==> Unending(s, i)
  {
    AtTwo(s, i, '-', '-');
    AtTwo(s, i, '/', '*');
    if At(s, i, "--") {
      LineJump(s, i, esc);
    } else if At(s, i, "/*") {
      assert StateAt(s, i + 2, esc) == Block(1, NONE);
      BlockRun(s, i + 2, 1, esc);
    }
  }

  lemma LineJump(s: string, i: nat, esc: bool)
    requires i < |s| && At(s, i, "--") && StateAt(s, i + 1, esc) == CodeStep(s, i, esc)
    ensures Skips(s, i + 1, Jump(s, i, esc), esc)
    ensures StateAt(s, Jump(s, i, esc), esc).Dollar? <==> Unending(s, i)
  {
    AtTwo(s, i, '-', '-');
    assert StateAt(s, i + 2, esc) == Line;
    LineRun(s, i + 2, esc);
  }

  lemma DollarJump(s: string, i: nat, esc: bool)
    requires i < |s| && s[i] == '$' && StateAt(s, i + 1, esc) == CodeStep(s, i, esc)
    ensures Skips(s, i + 1, Jump(s, i, esc), esc)
    ensures StateAt(s, Jump(s, i, esc), esc).Dollar? <==> Unending(s, i)
  {
    AtTwo(s, i, '-', '-');
    AtTwo(s, i, '/', '*');
    assert s[i..i + 1] == "$";
    if DollarTag(s, i).Some? {
      TagRun(s, i, i + 1, esc);
      BodyRun(s, i, DollarTag(s, i).value, esc);
    }
  }

  lemma NoSemicolonsSkipped(s: string, i: nat, j: nat)
    requires Skips(s, i, j, true)
    ensures forall k | i <= k < j :: !Semicolon(s, k)
  {
    forall k | i <= k < j ensures !Semicolon(s, k) { InertIsNoSemicolon(s, k); }
  }

  lemma InertIsNoSemicolon(s: string, k: nat)
    requires k < |s| && Inert(s, k, true)
    ensures !Semicolon(s, k)
  {
  }

  // -- A piece read by itself ---------------------------------------------------------------

  lemma StepSeesOnly(st: Lex, s: string, i: nat, t: string, j: nat, esc: bool)
    requires i < |s| && j < |t| && s[i] == t[j]
    requires EscapePrefix(s, i) == EscapePrefix(t, j) && AfterWord(s, i) == AfterWord(t, j)
    ensures Step(st, s, i, esc) == Step(st, t, j, esc)
  {
  }

  // What comes before the piece does not change how its characters look behind them.
  lemma LooksBehindAlike(s: string, a: nat, b: nat, k: nat)
    requires a <= a + k < b <= |s|
    requires a > 0 ==> IsSpace(s[a - 1]) || s[a - 1] == ';'
    ensures s[a..b][k] == s[a + k]
    ensures EscapePrefix(s[a..b], k) == EscapePrefix(s, a + k)
    ensures AfterWord(s[a..b], k) == AfterWord(s, a + k)
  {
    var p := s[a..b];
    if k > 0 { assert p[k - 1] == s[a + k - 1]; }
    if k > 1 { assert p[k - 2] == s[a + k - 2]; }
  }

  // Read on its own, a piece goes through the states it goes through in the text.
  lemma {:induction false} SameStates(s: string, a: nat, b: nat, k: nat, esc: bool)
    requires a <= a + k <= b <= |s| && StateAt(s, a, esc) == Code
    requires a > 0 ==> IsSpace(s[a - 1]) || s[a - 1] == ';'
    ensures StateAt(s[a..b], k, esc) == StateAt(s, a + k, esc)
    decreases k
  {
    if k > 0 {
      SameStates(s, a, b, k - 1, esc);
      SameStep(s, a, s[a..b], b, k - 1, StateAt(s, a + k - 1, esc), esc);
    }
  }

  lemma SameStep(s: string, a: nat, p: string, b: nat, k: nat, st: Lex, esc: bool)
    requires a <= a + k < b <= |s| && p == s[a..b] && st == StateAt(s, a + k, esc) == StateAt(p, k, esc)
    requires a > 0 ==> IsSpace(s[a - 1]) || s[a - 1] == ';'
    ensures StateAt(p, k + 1, esc) == StateAt(s, a + k + 1, esc)
  {
    LooksBehindAlike(s, a, b, k);
    StepSeesOnly(st, s, a + k, p, k, esc);
  }
}
