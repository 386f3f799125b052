/**
 A trigger, function or procedure with a BEGIN ... END body comes out of the splitter as one
 statement, whatever statements the body holds (protocol/postgres/multistatement.go:62-161).
 */
module TriggerBodies {
  import opened Text
  import opened SqlScan
  import opened SqlAutomaton
  import opened OpenBodies
  import opened SplitStatements
  import opened SplitTheorems

  // Complete text without a statement's end or an E'...' string, in whose code BEGINs and CASEs
  // outnumber ENDs by d.
  ghost predicate Whole(x: string, d: int) {
    && NoEscapes(x) && InCode(StateAt(x, |x|, true))
    && (forall k | 0 <= k < |x| :: !Semicolon(x, k))
    && Words(x, "begin", 0, |x|, true) + Words(x, "case", 0, |x|, true) == Words(x, "end", 0, |x|, true) + d
  }

  // What CREATE TRIGGER and the like say before the body.
  ghost predicate Header(h: string) {
    Whole(h, 0) && h != "" && (h[0] == 'C' || h[0] == 'c') && CreatesBody(Fields(Upper(h)))
  }

  predicate Letters(x: string) { x != "" && forall c <- x :: 'a' <= LowerChar(c) <= 'z' }

  // The statements of a body, each with its semicolon.
  function Body(bodies: seq<string>): string {
    if bodies == [] then "" else bodies[0] + ";" + Body(bodies[1..])
  }

  // -- The header is the same for every text that goes on from it -----------------------------

  predicate White(c: char) { c == ' ' || c == '\t' || c == '\n' || c == '\r' || c == '\U{0B}' || c == '\U{0C}' }

  lemma {:induction false} WordEndConcat(a: string, c: char, y: string, i: nat)
    requires i <= |a| && White(c)
    ensures WordEnd(a + [c] + y, i) == WordEnd(a, i)
    decreases |a| - i
  {
    assert i < |a| ==> (a + [c] + y)[i] == a[i];
    assert (a + [c] + y)[|a|] == c;
    if i < |a| { WordEndConcat(a, c, y, i + 1); }
  }

  // The first turn of Fields, alone and with more text behind.
  lemma {:induction false} FieldsTurn(a: string, c: char, y: string) returns (head: seq<string>, tail: string)
    requires a != "" && White(c)
    ensures |tail| < |a| && Fields(a) == head + Fields(tail)
    ensures Fields(a + [c] + y) == head + Fields(tail + [c] + y)
  {
    var s := a + [c] + y;
    if IsSpace(a[0]) {
      head, tail := [], a[1..];
      assert s[0] == a[0] && s[1..] == tail + [c] + y;
    } else {
      var e := WordEnd(a, 1);
      head, tail := [a[..e]], a[e..];
      WordEndConcat(a, c, y, 1);
      assert s[0] == a[0] && s[..e] == a[..e] && s[e..] == tail + [c] + y;
    }
  }

  // White space parts a text into words.
  lemma {:induction false} FieldsConcat(a: string, c: char, y: string)
    requires White(c)
    ensures Fields(a + [c] + y) == Fields(a) + Fields(y)
    decreases |a|
  {
    if a == "" {
      assert (a + [c] + y)[0] == c && (a + [c] + y)[1..] == y;
    } else {
      var head, tail := FieldsTurn(a, c, y);
      FieldsConcat(tail, c, y);
      Regrouped(head, Fields(tail), Fields(y));
    }
  }

  lemma UpperConcat(a: string, y: string)
    ensures Upper(a + " " + y) == Upper(a) + " " + Upper(y)
  {
  }

  lemma MoreFields(f: seq<string>, g: seq<string>)
    requires CreatesBody(f)
    ensures CreatesBody(f + g)
  {
    var r, t, k := HeadOf(f);
    assert f <= f + g;
    HeadCreates(f + g, r, t, k);
  }

  // q is h, a space, and more.
  ghost predicate Headed(h: string, q: string) { |h| < |q| && q[..|h| + 1] == h + " " }

  lemma HeaderHolds(h: string, q: string)
    requires Header(h) && Headed(h, q)
    ensures ExecutableStart(q, 0) == 0 && CreatesBody(Fields(Upper(q[0..])))
  {
    var y := q[|h| + 1..];
    assert q == h + " " + y && q[0..] == q;
    assert q[0] == (h + " ")[0] == h[0];
    AtTwo(q, 0, '-', '-');
    AtTwo(q, 0, '/', '*');
    UpperConcat(h, y);
    FieldsConcat(Upper(h), ' ', Upper(y));
    MoreFields(Fields(Upper(h)), Fields(Upper(y)));
  }

  // -- Text put together ------------------------------------------------------------------------

  predicate Sep(c: char) { c == ' ' || c == ';' }

  // Text that ends where a statement or a word may begin.
  ghost predicate Fit(p: string) {
    && StateAt(p, |p|, true) == Code && StateAt(p, |p|, false) == Code
    && (p != "" ==> Sep(p[|p| - 1]))
  }

  lemma SepIsCode(x: string, c: char, esc: bool)
    requires InCode(StateAt(x, |x|, esc)) && Sep(c)
    ensures StateAt(x + [c], |x| + 1, esc) == Code
  {
    StateBefore(x, [c], |x|, esc);
  }

  lemma {:induction false} StateBefore(p: string, x: string, k: nat, esc: bool)
    requires k <= |p|
    ensures StateAt(p + x, k, esc) == StateAt(p, k, esc)
  {
    assert (p + x)[0..|p|] == p;
    SameStates(p + x, 0, |p|, k, esc);
  }

  lemma {:induction false} StateAfter(p: string, x: string, k: nat, esc: bool)
    requires Fit(p) && k <= |x|
    ensures StateAt(p + x, |p| + k, esc) == StateAt(x, k, esc)
  {
    var q := p + x;
    assert q[|p|..|q|] == x;
    StateBefore(p, x, |p|, esc);
    SameStates(q, |p|, |q|, k, esc);
  }

  lemma {:induction false} NoWordAtSep(s: string, m: nat, w: string)
    requires m < |s| && Sep(s[m]) && IsWord(w)
    ensures Words(s, w, m, m + 1, false) == 0
  {
    if m + |w| <= |s| { NotTheWord(s, m, w, m); }
  }

  lemma {:induction false} PrefixWords(p: string, x: string, w: string)
    requires Fit(p) && IsWord(w)
    ensures Words(p + x, w, 0, |p|, false) == Words(p, w, 0, |p|, false)
  {
    if p != "" {
      var q, m := p + x, |p| - 1;
      assert q[0..m] == p[0..m] && q[m] == p[m];
      WordsSplit(q, w, 0, m, |p|, false);
      WordsSplit(p, w, 0, m, |p|, false);
      PieceWords(q, 0, m, w, 0, false);
      PieceWords(p, 0, m, w, 0, false);
      NoWordAtSep(q, m, w);
      NoWordAtSep(p, m, w);
    }
  }

  lemma {:induction false} SuffixWords(p: string, x: string, w: string)
    requires Fit(p) && IsWord(w)
    ensures Words(p + x, w, |p|, |p + x|, false) == Words(x, w, 0, |x|, false)
  {
    var q := p + x;
    assert q[|p|..|q|] == x;
    StateBefore(p, x, |p|, false);
    PieceWords(q, |p|, |q|, w, 0, false);
  }

  lemma {:induction false} WordsOfParts(p: string, x: string, w: string)
    requires Fit(p) && IsWord(w)
    ensures Words(p + x, w, 0, |p + x|, false) == Words(p, w, 0, |p|, false) + Words(x, w, 0, |x|, false)
  {
    WordsSplit(p + x, w, 0, |p|, |p + x|, false);
    PrefixWords(p, x, w);
    SuffixWords(p, x, w);
  }

  lemma BalanceOfParts(p: string, x: string)
    requires Fit(p)
    ensures Balance(p + x, 0, |p + x|) == Balance(p, 0, |p|) + Balance(x, 0, |x|)
  {
    WordsOfParts(p, x, "begin");
    WordsOfParts(p, x, "case");
    WordsOfParts(p, x, "end");
  }

  lemma SepBalance(x: string, c: char)
    requires Sep(c)
    ensures Balance(x + [c], 0, |x| + 1) == Balance(x, 0, |x|)
  {
    SepWords(x, c, "begin");
    SepWords(x, c, "case");
    SepWords(x, c, "end");
  }

  lemma {:induction false} WordsBeforeSep(q: string, x: string, w: string)
    requires |q| == |x| + 1 && q[..|x|] == x && Sep(q[|x|]) && IsWord(w)
    ensures Words(q, w, 0, |x|, false) == Words(x, w, 0, |x|, false)
  {
    assert q[0..|x|] == x;
    PieceWords(q, 0, |x|, w, 0, false);
  }

  lemma {:induction false} SepWords(x: string, c: char, w: string)
    requires Sep(c) && IsWord(w)
    ensures Words(x + [c], w, 0, |x| + 1, false) == Words(x, w, 0, |x|, false)
  {
    WordsSplit(x + [c], w, 0, |x|, |x| + 1, false);
    WordsBeforeSep(x + [c], x, w);
    NoWordAtSep(x + [c], |x|, w);
  }

  lemma WholeBalance(x: string, d: int)
    requires Whole(x, d)
    ensures Balance(x, 0, |x|) == d && StateAt(x, |x|, false) == StateAt(x, |x|, true)
  {
    StatesAgree(x, |x|);
    WordsAgree(x, "begin", 0, |x|);
    WordsAgree(x, "case", 0, |x|);
    WordsAgree(x, "end", 0, |x|);
  }

  // Part of a statement with this header, d deep, that has not been cut.
  ghost predicate Uncut(h: string, q: string, d: int) {
    && Headed(h, q) && Balance(q, 0, |q|) == d
    && InCode(StateAt(q, |q|, true)) && InCode(StateAt(q, |q|, false))
    && forall k | 0 <= k < |q| && Semicolon(q, k) :: OpenBody(q[..k])
  }

  lemma UncutIsOpen(h: string, q: string, d: int)
    requires Header(h) && Uncut(h, q, d)
    ensures OpenBody(q) <==> d > 0
  {
    HeaderHolds(h, q);
    OpenBodyCounts(q);
  }

  lemma AddPart(h: string, p: string, d: int, x: string, dx: int)
    requires Header(h) && Uncut(h, p, d) && Fit(p) && Whole(x, dx)
    ensures Uncut(h, p + x, d + dx)
  {
    var q := p + x;
    assert q[..|h| + 1] == p[..|h| + 1];
    BalanceOfParts(p, x);
    WholeBalance(x, dx);
    StateAfter(p, x, |x|, true);
    StateAfter(p, x, |x|, false);
    forall k | 0 <= k < |q| && Semicolon(q, k) ensures OpenBody(q[..k]) { PartSemicolon(p, x, k); }
  }

  lemma PartSemicolon(p: string, x: string, k: nat)
    requires Fit(p) && k < |p + x| && Semicolon(p + x, k)
    ensures if k < |p| then Semicolon(p, k) && (p + x)[..k] == p[..k] else Semicolon(x, k - |p|)
  {
    if k < |p| { StateBefore(p, x, k, true); } else { StateAfter(p, x, k - |p|, true); }
  }

  lemma SepSemicolon(q: string, c: char, k: nat)
    requires k < |q| + 1 && Semicolon(q + [c], k)
    ensures (q + [c])[..k] == q[..k] && if k < |q| then Semicolon(q, k) else c == ';'
  {
    StateBefore(q, [c], k, true);
  }

  lemma AddSep(h: string, q: string, d: int, c: char)
    requires Header(h) && Uncut(h, q, d) && Sep(c) && (c == ';' ==> d > 0)
    ensures Uncut(h, q + [c], d) && Fit(q + [c])
  {
    var r := q + [c];
    assert r[..|h| + 1] == q[..|h| + 1] && q[..|q|] == q;
    SepIsCode(q, c, true);
    SepIsCode(q, c, false);
    SepBalance(q, c);
    UncutIsOpen(h, q, d);
    forall k | 0 <= k < |r| && Semicolon(r, k) ensures OpenBody(r[..k]) { SepSemicolon(q, c, k); }
  }

  // -- The parts of a trigger -----------------------------------------------------------------------

  lemma {:induction false} LettersAreCode(x: string, i: nat, esc: bool)
    requires Letters(x) && i <= |x|
    ensures StateAt(x, i, esc) == Code
  {
    if i > 0 {
      LettersAreCode(x, i - 1, esc);
      assert x[i - 1] in x;
    }
  }

  lemma {:induction false} LettersRun(x: string, i: nat)
    requires Letters(x) && i <= |x|
    ensures WordRun(x, i) == |x|
    decreases |x| - i
  {
    if i < |x| {
      assert x[i] in x;
      LettersRun(x, i + 1);
    }
  }

  lemma LettersWords(x: string, w: string, esc: bool)
    requires Letters(x) && IsWord(w)
    ensures Words(x, w, 0, |x|, esc) == if Lower(x) == w then 1 else 0
  {
    LettersRun(x, 1);
    LettersAreCode(x, 0, esc);
    assert x[0] in x && x[0..|x|] == x;
    WordIsRun(x, 0, w, esc);
  }

  lemma LettersAreWhole(x: string)
    requires Letters(x)
    ensures Whole(x, if Lower(x) == "begin" || Lower(x) == "case" then 1 else if Lower(x) == "end" then -1 else 0)
  {
    forall i | 0 <= i <= |x| ensures StateAt(x, i, true) == Code { LettersAreCode(x, i, true); }
    forall k | 0 <= k < |x| ensures !Semicolon(x, k) { assert x[k] in x; }
    LettersWords(x, "begin", true);
    LettersWords(x, "case", true);
    LettersWords(x, "end", true);
  }

  lemma AddBody(h: string, p: string, b: string)
    requires Header(h) && Uncut(h, p, 1) && Fit(p) && Whole(b, 0)
    ensures Uncut(h, p + b + ";", 1) && Fit(p + b + ";")
  {
    AddPart(h, p, 1, b, 0);
    AddSep(h, p + b, 1, ';');
  }

  lemma {:induction false} BodyFirst(p: string, bodies: seq<string>)
    requires bodies != []
    ensures p + bodies[0] + ";" + Body(bodies[1..]) == p + Body(bodies)
  {
  }

  lemma {:induction false} AddBodies(h: string, p: string, bodies: seq<string>)
    requires Header(h) && Uncut(h, p, 1) && Fit(p)
    requires forall i | 0 <= i < |bodies| :: Whole(bodies[i], 0)
    ensures Uncut(h, p + Body(bodies), 1) && Fit(p + Body(bodies))
    decreases |bodies|
  {
    if bodies == [] {
      assert p + "" == p;
    } else {
      AddBody(h, p, bodies[0]);
      AddBodies(h, p + bodies[0] + ";", bodies[1..]);
      BodyFirst(p, bodies);
    }
  }

  lemma NoSemicolonWithSep(x: string, c: char, k: nat)
    requires forall i | 0 <= i < |x| :: !Semicolon(x, i)
    requires k < |x| + 1 && c != ';'
    ensures !Semicolon(x + [c], k)
  {
    if k < |x| {
      StateBefore(x, [c], k, true);
      assert !Semicolon(x, k);
    }
  }

  lemma HeaderUncut(h: string)
    requires Header(h)
    ensures Uncut(h, h + " ", 0) && Fit(h + " ")
  {
    var r := h + " ";
    WholeBalance(h, 0);
    SepIsCode(h, ' ', true);
    SepIsCode(h, ' ', false);
    SepBalance(h, ' ');
    forall k | 0 <= k < |r| ensures !Semicolon(r, k) { NoSemicolonWithSep(h, ' ', k); }
  }

  // The text of a trigger: a header, BEGIN, its statements, END.
  function Trigger(h: string, begins: string, bodies: seq<string>, ends: string): string {
    h + " " + begins + " " + Body(bodies) + ends
  }

  lemma TriggerUncut(h: string, begins: string, bodies: seq<string>, ends: string)
    requires Header(h) && Letters(begins) && Lower(begins) == "begin" && Letters(ends) && Lower(ends) == "end"
    requires forall i | 0 <= i < |bodies| :: Whole(bodies[i], 0)
    ensures Uncut(h, Trigger(h, begins, bodies, ends), 0)
  {
    HeaderUncut(h);
    LettersAreWhole(begins);
    LettersAreWhole(ends);
    AddPart(h, h + " ", 0, begins, 1);
    AddSep(h, h + " " + begins, 1, ' ');
    AddBodies(h, h + " " + begins + " ", bodies);
    AddPart(h, h + " " + begins + " " + Body(bodies), 1, ends, -1);
  }

  // -- The splitter's pieces ---------------------------------------------------------------------------

  // a is where a piece may begin.
  ghost predicate Begins(s: string, a: nat) {
    && a <= |s| && StateAt(s, a, true) == Code
    && (a > 0 ==> IsSpace(s[a - 1]) || s[a - 1] == ';')
  }

  lemma CutShift(s: string, a: nat, start: nat, i: nat)
    requires Begins(s, a) && start <= i < |s| - a
    ensures s[a..][start..i] == s[a + start..a + i]
    ensures IsCut(s, a + start, a + i) <==> IsCut(s[a..], start, i)
  {
    assert s[a..] == s[a..|s|];
    SliceOfSlice(s, a, |s|, start, i);
    SameStates(s, a, |s|, i, true);
  }

  lemma PiecesTurn(s: string, start: nat, i: nat, cut: bool)
    requires start <= i < |s| && cut == IsCut(s, start, i)
    ensures Pieces(s, start, i) == if cut then [s[start..i]] + Pieces(s, i + 1, i + 1) else Pieces(s, start, i + 1)
  {
  }

  lemma {:induction false} PiecesShift(s: string, a: nat, start: nat, i: nat)
    requires Begins(s, a) && start <= i <= |s| - a
    ensures Pieces(s, a + start, a + i) == Pieces(s[a..], start, i)
    decreases |s| - a - i
  {
    if i < |s| - a { ShiftTurn(s, a, start, i); } else { assert s[a..][start..] == s[a + start..]; }
  }

  lemma {:induction false} ShiftTurn(s: string, a: nat, start: nat, i: nat)
    requires Begins(s, a) && start <= i < |s| - a
    ensures Pieces(s, a + start, a + i) == Pieces(s[a..], start, i)
    decreases |s| - a - i, 0
  {
    CutShift(s, a, start, i);
    var cut := IsCut(s[a..], start, i);
    PiecesTurn(s, a + start, a + i, cut);
    PiecesTurn(s[a..], start, i, cut);
    PiecesShift(s, a, if cut then i + 1 else start, i + 1);
  }

  lemma {:induction false} UncutPieces(s: string, i: nat, n: nat)
    requires i <= n <= |s| && forall k | i <= k < n :: !IsCut(s, 0, k)
    ensures Pieces(s, 0, i) == Pieces(s, 0, n)
    decreases n - i
  {
    if i < n { UncutPieces(s, i + 1, n); }
  }

  lemma SemicolonBefore(t: string, rest: string, k: nat)
    requires k <= |t|
    ensures var s := t + ";" + rest;
            && s[0..k] == t[..k]
            && (Semicolon(s, k) <==> if k < |t| then Semicolon(t, k) else InCode(StateAt(t, k, true)))
  {
    var s := t + ";" + rest;
    assert s[0..|t|] == t && s[|t|] == ';';
    SameStates(s, 0, |t|, k, true);
  }

  lemma RestPieces(t: string, rest: string)
    requires InCode(StateAt(t, |t|, true))
    ensures var s := t + ";" + rest; Pieces(s, |t| + 1, |t| + 1) == Pieces(rest, 0, 0)
  {
    var s := t + ";" + rest;
    SemicolonBefore(t, rest, |t|);
    SemicolonLeavesCode(s, |t|);
    assert s[|t| + 1..] == rest;
    PiecesShift(s, |t| + 1, 0, 0);
  }

  // A piece that is not open at its semicolon comes out by itself, and the rest is split by itself.
  lemma FirstPiece(t: string, rest: string)
    requires InCode(StateAt(t, |t|, true)) && !OpenBody(t)
    requires forall k | 0 <= k < |t| && Semicolon(t, k) :: OpenBody(t[..k])
    ensures Split(t + ";" + rest) == Keep(t) + Split(rest)
  {
    var s, n := t + ";" + rest, |t|;
    forall k | 0 <= k < n ensures !IsCut(s, 0, k) { SemicolonBefore(t, rest, k); }
    SemicolonBefore(t, rest, n);
    assert t[..n] == t;
    UncutPieces(s, 0, n);
    RestPieces(t, rest);
    KeptCut(s, 0, n);
  }

  lemma KeptWhole(t: string)
    requires t != "" && ExecutableStart(t, 0) == 0 && !IsSpace(t[0]) && !IsSpace(t[|t| - 1])
    ensures Keep(t) == [t]
  {
  }

  // It is one statement of the message, whatever comes after its semicolon.
  lemma TriggerIsOneStatement(h: string, begins: string, bodies: seq<string>, ends: string, rest: string)
    requires Header(h) && Letters(begins) && Lower(begins) == "begin" && Letters(ends) && Lower(ends) == "end"
    requires forall i | 0 <= i < |bodies| :: Whole(bodies[i], 0)
    ensures var t := Trigger(h, begins, bodies, ends);
            Split(t + ";" + rest) == [t] + Split(rest)
  {
    var t := Trigger(h, begins, bodies, ends);
    TriggerUncut(h, begins, bodies, ends);
    UncutIsOpen(h, t, 0);
    FirstPiece(t, rest);
    HeaderHolds(h, t);
    assert t[0] == (h + " ")[0] && t[|t| - 1] == ends[|ends| - 1] && ends[|ends| - 1] in ends;
    KeptWhole(t);
  }

  // -- A string the two readings take differently --------------------------------------------------------

  lemma {:induction false} QuoteGoesOn(y: string, j: nat, i: nat, esc: bool)
    requires j <= i <= |y| && StateAt(y, j, esc) == Quote && forall k | j <= k < |y| :: y[k] != '\''
    ensures StateAt(y, i, esc) == Quote
    decreases i - j
  {
    if j < i { QuoteGoesOn(y, j, i - 1, esc); }
  }

  // The string of one apostrophe, escaped with a backslash, and what follows it to the end of a body.
  function Escaped(ends: string): string { "E'\\''" + ";" + ends }

  predicate StartsEscaped(y: string) {
    |y| > 5 && y[0] == 'E' && y[1] == '\'' && y[2] == '\\' && y[3] == '\'' && y[4] == '\'' && y[5] == ';'
  }

  lemma PlainStates(y: string)
    requires StartsEscaped(y)
    ensures StateAt(y, 5, false) == Quote
  {
    assert StateAt(y, 1, false) == Code;
    assert StateAt(y, 2, false) == Quote;
    assert StateAt(y, 3, false) == Quote;
    assert StateAt(y, 4, false) == QuoteEnd;
  }

  lemma SplitterStates(y: string)
    requires StartsEscaped(y)
    ensures StateAt(y, 5, true) == EscapeEnd
  {
    assert StateAt(y, 1, true) == Code;
    assert StateAt(y, 2, true) == Escape;
    assert StateAt(y, 3, true) == EscapeNext;
    assert StateAt(y, 4, true) == Escape;
  }

  lemma EscapedStates(ends: string)
    requires Letters(ends)
    ensures var y := Escaped(ends);
            StartsEscaped(y) && StateAt(y, 5, true) == EscapeEnd &&
            forall i | 5 <= i <= |y| :: StateAt(y, i, false) == Quote
  {
    var y := Escaped(ends);
    PlainStates(y);
    SplitterStates(y);
    forall k | 5 <= k < |y| ensures y[k] != '\'' { if k > 5 { assert y[k] == ends[k - 6] && ends[k - 6] in ends; } }
    forall i | 5 <= i <= |y| ensures StateAt(y, i, false) == Quote { QuoteGoesOn(y, 5, i, false); }
  }

  lemma EscapedWords(ends: string, w: string)
    requires Letters(ends) && IsWord(w) && |w| > 1
    ensures Words(Escaped(ends), w, 0, |Escaped(ends)|, false) == 0
  {
    var y := Escaped(ends);
    EscapedStates(ends);
    forall k | 0 <= k < |y| ensures !WordAt(y, k, w, false) {
      if k < 5 && k + |w| <= |y| { NotTheWord(y, k, w, if k == 0 then 1 else k); }
    }
    NoWords(y, w, 0, |y|, false);
  }

  lemma SelectUncut(h: string, begins: string, select: string)
    requires Header(h) && Letters(begins) && Lower(begins) == "begin" && Whole(select, 0)
    ensures var p := h + " " + begins + " " + select + " ";
            Uncut(h, p, 1) && Fit(p)
  {
    HeaderUncut(h);
    LettersAreWhole(begins);
    AddPart(h, h + " ", 0, begins, 1);
    AddSep(h, h + " " + begins, 1, ' ');
    AddPart(h, h + " " + begins + " ", 1, select, 0);
    AddSep(h, h + " " + begins + " " + select, 1, ' ');
  }

  lemma EscapedBalance(p: string, ends: string)
    requires Fit(p) && Letters(ends)
    ensures Balance(p + Escaped(ends), 0, |p + Escaped(ends)|) == Balance(p, 0, |p|)
  {
    EscapedWords(ends, "begin");
    EscapedWords(ends, "case");
    EscapedWords(ends, "end");
    BalanceOfParts(p, Escaped(ends));
  }

  lemma EscapedEnd(p: string, ends: string)
    requires Fit(p) && Letters(ends)
    ensures var t := p + Escaped(ends);
            InCode(StateAt(t, |p| + 5, true)) && !StateAt(t, |t|, false).Dollar?
  {
    var y := Escaped(ends);
    EscapedStates(ends);
    StateAfter(p, y, 5, true);
    StateAfter(p, y, |y|, false);
  }

  // Such a string in a body hides the END after it: the splitter has left the string, the body counts
  // as open, and what comes after its semicolon is taken into the statement.
  lemma EscapedApostropheHidesEnd(h: string, begins: string, select: string, ends: string)
    requires Header(h) && Letters(begins) && Lower(begins) == "begin" && Letters(ends) && Lower(ends) == "end"
    requires Whole(select, 0)
    ensures var p := h + " " + begins + " " + select + " ";
            InCode(StateAt(p + Escaped(ends), |p| + 5, true)) && OpenBody(p + Escaped(ends))
  {
    var p := h + " " + begins + " " + select + " ";
    var t := p + Escaped(ends);
    SelectUncut(h, begins, select);
    EscapedBalance(p, ends);
    EscapedEnd(p, ends);
    assert t[..|h| + 1] == p[..|h| + 1];
    HeaderHolds(h, t);
    OpenBodyCounts(t);
  }
}
