/**
 Where parseColDef parts a column definition into name, type and constraints: the type ends at the
 first of eleven words outside parentheses (protocol/postgres/alter.go:412-484).
 */
module ColumnParts {
  import opened Options
  import opened Text
  import opened SqlScan
  import opened ColumnList
  import opened ColumnEdit

  // The words that begin a column's constraints.
  predicate Listed(w: string) {
    || w == "not" || w == "null" || w == "default" || w == "primary" || w == "unique" || w == "check"
    || w == "references" || w == "collate" || w == "generated" || w == "as" || w == "constraint"
  }

  // Parentheses open at k, less those closed.
  function Depth(s: string, k: nat): int
    requires k <= |s|
  {
    if k == 0 then 0
    else Depth(s, k - 1) + (if s[k - 1] == '(' then 1 else if s[k - 1] == ')' then -1 else 0)
  }

  // An identifier that begins before k reaches it.
  predicate InIdent(s: string, k: nat)
    requires k <= |s|
  {
    k > 0 && IsWordByte(s[k - 1]) && (IsIdentStart(s[k - 1]) || InIdent(s, k - 1))
  }

  predicate WordIs(s: string, k: nat, w: string) {
    k + |w| <= |s| && Lower(s[k..k + |w|]) == w && (k + |w| < |s| ==> !IsWordByte(s[k + |w|]))
  }

  // One of the words stands at k, in letters of any case, outside parentheses.
  ghost predicate ListedAt(s: string, k: nat) {
    k <= |s| && Depth(s, k) == 0 && !InIdent(s, k) && exists w :: Listed(w) && WordIs(s, k, w)
  }

  // -- Where the type ends ------------------------------------------------------------------------

  lemma ListedLetters(w: string)
    requires Listed(w)
    ensures w != "" && forall c <- w :: 'a' <= c <= 'z'
  {
  }

  lemma ListedChars(s: string, k: nat, w: string, i: nat)
    requires Listed(w) && WordIs(s, k, w) && i < |w|
    ensures IsIdentStart(s[k + i])
  {
    ListedLetters(w);
    assert s[k..k + |w|][i] == s[k + i];
    assert Lower(s[k..k + |w|])[i] == LowerChar(s[k + i]) && w[i] in w;
  }

  lemma ListedStarts(s: string, k: nat)
    requires k < |s| && !IsIdentStart(s[k])
    ensures !ListedAt(s, k)
  {
    forall w | Listed(w) ensures !WordIs(s, k, w) {
      ListedLetters(w);
      if k + |w| <= |s| {
        assert s[k..k + |w|][0] == s[k];
        assert Lower(s[k..k + |w|])[0] == LowerChar(s[k]) && w[0] in w;
      }
    }
  }

  lemma {:induction false} RunOfWord(s: string, k: nat)
    requires k <= |s|
    ensures forall j | k <= j < WordRun(s, k) :: IsWordByte(s[j])
    ensures WordRun(s, k) < |s| ==> !IsWordByte(s[WordRun(s, k)])
    decreases |s| - k
  {
    if k < |s| && IsWordByte(s[k]) { RunOfWord(s, k + 1); }
  }

  lemma {:induction false} IdentRuns(s: string, k: nat, j: nat)
    requires k < j <= |s| && IsIdentStart(s[k]) && forall i | k <= i < j :: IsWordByte(s[i])
    ensures InIdent(s, j)
    decreases j
  {
    if k + 1 < j { IdentRuns(s, k, j - 1); }
  }

  // A word at k ends where the run of word bytes ends.
  lemma WordEndsWithRun(s: string, k: nat, n: nat, w: string)
    requires k < n <= |s| && (forall j | k <= j < n :: IsWordByte(s[j])) && (n < |s| ==> !IsWordByte(s[n]))
    requires Listed(w)
    ensures WordIs(s, k, w) <==> Lower(s[k..n]) == w
  {
    ListedLetters(w);
    if n < k + |w| <= |s| {
      assert s[k..k + |w|][n - k] == s[n];
      assert Lower(s[k..k + |w|])[n - k] == LowerChar(s[n]) && w[n - k] in w;
    }
  }

  lemma {:induction false} DepthOver(s: string, k: nat, j: nat)
    requires k <= j <= |s| && forall i | k <= i < j :: s[i] != '(' && s[i] != ')'
    ensures Depth(s, j) == Depth(s, k)
    decreases j
  {
    if k < j { DepthOver(s, k, j - 1); }
  }

  // The scan is between words.
  ghost predicate Between(s: string, k: nat) {
    k <= |s| && (Depth(s, k) == 0 && k < |s| && IsWordByte(s[k]) ==> !InIdent(s, k))
  }

  // An identifier outside parentheses: it is one of the words, or the scan goes on after it.
  lemma IdentTurn(s: string, k: nat)
    requires k < |s| && Between(s, k) && Depth(s, k) == 0 && IsIdentStart(s[k])
    ensures var w := WordRun(s, k + 1);
            && (ListedAt(s, k) <==> Lower(s[k..w]) in STOP_WORDS)
            && (forall j | k < j < w :: !ListedAt(s, j))
            && Between(s, w) && Depth(s, w) == 0
  {
    var n := WordRun(s, k + 1);
    RunOfWord(s, k + 1);
    forall w | Listed(w) ensures WordIs(s, k, w) <==> Lower(s[k..n]) == w { WordEndsWithRun(s, k, n, w); }
    if Listed(Lower(s[k..n])) { assert WordIs(s, k, Lower(s[k..n])); }
    forall j | k < j < n ensures !ListedAt(s, j) { IdentRuns(s, k, j); }
    DepthOver(s, k, n);
  }

  lemma {:induction false} TypeEndFrom(s: string, k: nat, e: nat)
    requires Between(s, k) && e == TypeEnd(s, k, Depth(s, k))
    ensures forall j | k <= j < e :: !ListedAt(s, j)
    ensures e < |s| ==> ListedAt(s, e)
    decreases |s| - k
  {
    if k < |s| { TypeEndTurn(s, k, e); }
  }

  lemma {:induction false} TypeEndTurn(s: string, k: nat, e: nat)
    requires k < |s| && Between(s, k) && e == TypeEnd(s, k, Depth(s, k))
    ensures forall j | k <= j < e :: !ListedAt(s, j)
    ensures e < |s| ==> ListedAt(s, e)
    decreases |s| - k, 0
  {
    if Depth(s, k) == 0 && IsIdentStart(s[k]) {
      IdentTurn(s, k);
      if Lower(s[k..WordRun(s, k + 1)]) !in STOP_WORDS { TypeEndFrom(s, WordRun(s, k + 1), e); }
    } else {
      if !IsIdentStart(s[k]) { ListedStarts(s, k); }
      assert Depth(s, k + 1) == Depth(s, k) + if s[k] == '(' then 1 else if s[k] == ')' then -1 else 0;
      TypeEndFrom(s, k + 1, e);
    }
  }

  // The type ends at the first of the words outside parentheses, or with the text.
  lemma TypeEndsAtFirst(rest: string)
    ensures var e := TypeEnd(rest, 0, 0);
            (forall k | 0 <= k < e :: !ListedAt(rest, k)) && (e < |rest| ==> ListedAt(rest, e))
  {
    TypeEndFrom(rest, 0, TypeEnd(rest, 0, 0));
  }

  // -- A part of a text has the words it has there ---------------------------------------------------

  lemma {:induction false} IdentOfSlice(s: string, a: nat, b: nat, k: nat)
    requires a <= a + k <= b <= |s| && !AfterWord(s, a)
    ensures InIdent(s[a..b], k) <==> InIdent(s, a + k)
  {
    if k > 0 {
      assert s[a..b][k - 1] == s[a + k - 1];
      IdentOfSlice(s, a, b, k - 1);
    }
  }

  lemma {:induction false} DepthOfSlice(s: string, a: nat, b: nat, k: nat)
    requires a <= a + k <= b <= |s|
    ensures Depth(s, a + k) == Depth(s, a) + Depth(s[a..b], k)
  {
    if k > 0 {
      assert s[a..b][k - 1] == s[a + k - 1];
      DepthOfSlice(s, a, b, k - 1);
    }
  }

  // No identifier goes on across b.
  ghost predicate Edge(s: string, b: nat) { b <= |s| && (b < |s| && IsWordByte(s[b]) ==> !InIdent(s, b)) }

  lemma WordReaches(s: string, k: nat, b: nat, w: string)
    requires Listed(w) && WordIs(s, k, w) && k < b <= k + |w|
    ensures InIdent(s, b) && (b < k + |w| ==> IsWordByte(s[b]))
  {
    forall i | k <= i < k + |w| ensures IsIdentStart(s[i]) { ListedChars(s, k, w, i - k); }
    IdentRuns(s, k, b);
  }

  lemma WordOverEdge(s: string, k: nat, b: nat, w: string)
    requires Listed(w) && WordIs(s, k, w) && k < b && Edge(s, b)
    ensures k + |w| <= b
  {
    if b <= k + |w| { WordReaches(s, k, b, w); }
  }

  lemma {:induction false} IdentInSlice(s: string, a: nat, b: nat, k: nat)
    requires a <= a + k <= b <= |s| && InIdent(s[a..b], k)
    ensures InIdent(s, a + k)
  {
    assert s[a..b][k - 1] == s[a + k - 1];
    if !IsIdentStart(s[a + k - 1]) { IdentInSlice(s, a, b, k - 1); }
  }

  lemma WordToEdge(s: string, a: nat, b: nat, k: nat, w: string)
    requires a <= b <= |s| && k < b - a && Edge(s, b) && Listed(w) && WordIs(s[a..b], k, w)
    ensures WordIs(s, a + k, w)
  {
    var p := s[a..b];
    ListedLetters(w);
    SliceOfSlice(s, a, b, k, k + |w|);
    if k + |w| == |p| {
      WordReaches(p, k, |p|, w);
      IdentInSlice(s, a, b, |p|);
    } else {
      assert p[k + |w|] == s[a + k + |w|];
    }
  }

  lemma WordFromEdge(s: string, a: nat, b: nat, k: nat, w: string)
    requires a <= b <= |s| && k < b - a && Edge(s, b) && Listed(w) && WordIs(s, a + k, w)
    ensures WordIs(s[a..b], k, w)
  {
    WordOverEdge(s, a + k, b, w);
    SliceOfSlice(s, a, b, k, k + |w|);
    if k + |w| < b - a { assert s[a..b][k + |w|] == s[a + k + |w|]; }
  }

  lemma WordOfSlice(s: string, a: nat, b: nat, k: nat, w: string)
    requires a <= b <= |s| && k < b - a && Edge(s, b) && Listed(w)
    ensures WordIs(s[a..b], k, w) <==> WordIs(s, a + k, w)
  {
    if WordIs(s[a..b], k, w) { WordToEdge(s, a, b, k, w); }
    if WordIs(s, a + k, w) { WordFromEdge(s, a, b, k, w); }
  }

  lemma ListedOfSlice(s: string, a: nat, b: nat, k: nat)
    requires a <= b <= |s| && k < b - a && Edge(s, b) && Depth(s, a) == 0 && !AfterWord(s, a)
    ensures ListedAt(s[a..b], k) <==> ListedAt(s, a + k)
  {
    IdentOfSlice(s, a, b, k);
    DepthOfSlice(s, a, b, k);
    forall w | Listed(w) ensures WordIs(s[a..b], k, w) <==> WordIs(s, a + k, w) { WordOfSlice(s, a, b, k, w); }
  }

  lemma NothingAtEnd(s: string)
    ensures !ListedAt(s, |s|)
  {
    forall w | Listed(w) ensures !WordIs(s, |s|, w) { ListedLetters(w); }
  }

  // -- White space around a part -----------------------------------------------------------------------

  predicate Trimmed(x: string) { x == "" || (!IsSpace(x[0]) && !IsSpace(x[|x| - 1])) }

  lemma {:induction false} TrimLeftBlank(w: string, x: string)
    requires Blank(w)
    ensures TrimLeft(w + x) == TrimLeft(x)
    decreases |w|
  {
    if w == "" {
      assert w + x == x;
    } else {
      assert (w + x)[0] == w[0] && w[0] in w && (w + x)[1..] == w[1..] + x;
      assert forall c <- w[1..] :: c in w;
      TrimLeftBlank(w[1..], x);
    }
  }

  lemma {:induction false} TrimRightBlank(x: string, w: string)
    requires Blank(w)
    ensures TrimRight(x + w) == TrimRight(x)
    decreases |w|
  {
    if w == "" {
      assert x + w == x;
    } else {
      var v := w[..|w| - 1];
      assert (x + w)[|x + w| - 1] == w[|w| - 1] && w[|w| - 1] in w && (x + w)[..|x + w| - 1] == x + v;
      assert forall c <- v :: c in w;
      TrimRightBlank(x, v);
    }
  }

  lemma TrimPadded(a: string, x: string, b: string)
    requires Blank(a) && Blank(b) && Trimmed(x)
    ensures TrimSpace(a + x + b) == x
  {
    assert a + x + b == a + (x + b);
    TrimLeftBlank(a, x + b);
    if x == "" {
      assert x + b == b + "";
      TrimLeftBlank(b, "");
    } else {
      TrimRightBlank(x, b);
    }
  }

  lemma TrimNothing(x: string)
    requires Trimmed(x)
    ensures TrimSpace(x) == x
  {
    assert "" + x + "" == x;
    TrimPadded("", x, "");
  }

  lemma TrimIsTrimmed(s: string)
    ensures Trimmed(TrimSpace(s))
  {
    var a := TrimLeftParts(s);
    var b := TrimRightParts(s[a..]);
    if b > 0 { assert s[a..][..b][0] == s[a] && s[a..][..b][b - 1] == s[a..][b - 1]; }
  }

  // -- The parts of the rest ------------------------------------------------------------------------------

  // A type: parentheses balanced, and none of the words outside them.
  ghost predicate IsType(t: string) {
    Trimmed(t) && Depth(t, |t|) == 0 && forall k | 0 <= k <= |t| :: !ListedAt(t, k)
  }

  // Constraints: none, or text that begins with one of the words.
  ghost predicate IsConstraints(c: string) { c == "" || (Trimmed(c) && ListedAt(c, 0)) }

  // The part of the text after the name that is type and constraints.
  function Core(t: string, w: string, c: string): string {
    if c == "" then t else if t == "" then c else t + w + c
  }

  lemma BlankIsNoWord(w: string, k: nat)
    requires Blank(w) && k < |w|
    ensures !IsWordByte(w[k]) && w[k] != '(' && w[k] != ')'
  {
    assert w[k] in w;
  }

  lemma CoreListed(t: string, w: string, c: string, k: nat)
    requires IsType(t) && Blank(w) && t != "" && w != "" && c != "" && IsConstraints(c) && k <= |t + w|
    ensures ListedAt(t + w + c, k) <==> k == |t + w|
  {
    var r, m := t + w + c, |t + w|;
    forall i | |t| <= i < m ensures r[i] == w[i - |t|] && !IsWordByte(r[i]) && r[i] != '(' && r[i] != ')' {
      BlankIsNoWord(w, i - |t|);
    }
    assert r[0..|t|] == t && r[m..|r|] == c;
    if k < |t| {
      ListedOfSlice(r, 0, |t|, k);
    } else if k < m {
      ListedStarts(r, k);
    } else {
      DepthOfSlice(r, 0, |t|, |t|);
      DepthOver(r, |t|, m);
      ListedOfSlice(r, m, |r|, 0);
    }
  }

  lemma FirstListed(rest: string, e: nat, m: nat)
    requires e <= |rest| && m < |rest| && forall k | 0 <= k <= m :: ListedAt(rest, k) <==> k == m
    requires (forall k | 0 <= k < e :: !ListedAt(rest, k)) && (e < |rest| ==> ListedAt(rest, e))
    ensures e == m
  {
    assert ListedAt(rest, m);
  }

  lemma CorePartsBoth(t: string, w: string, c: string, e: nat)
    requires IsType(t) && IsConstraints(c) && Blank(w) && t != "" && c != "" && w != ""
    requires e == TypeEnd(t + w + c, 0, 0)
    ensures e == |t + w| && TrimSpace((t + w + c)[..e]) == t && TrimSpace((t + w + c)[e..]) == c
  {
    var rest := t + w + c;
    TypeEndsAtFirst(rest);
    forall k | 0 <= k <= |t + w| ensures ListedAt(rest, k) <==> k == |t + w| { CoreListed(t, w, c, k); }
    FirstListed(rest, e, |t + w|);
    assert rest[..e] == "" + t + w && rest[e..] == c;
    TrimPadded("", t, w);
    TrimNothing(c);
  }

  lemma CorePartsOne(x: string, e: nat)
    requires e == TypeEnd(x, 0, 0) && Trimmed(x)
    ensures IsType(x) ==> TrimSpace(x[..e]) == x && TrimSpace(x[e..]) == ""
    ensures IsConstraints(x) ==> TrimSpace(x[..e]) == "" && TrimSpace(x[e..]) == x
  {
    TypeEndsAtFirst(x);
    TrimNothing(x);
    TrimNothing("");
    if IsType(x) { assert x[..e] == x && x[e..] == ""; }
    if IsConstraints(x) { assert x[e..] == x && x[..e] == ""; }
  }

  lemma CoreParts(t: string, w: string, c: string)
    requires IsType(t) && IsConstraints(c) && Blank(w) && (t != "" && c != "" ==> w != "")
    ensures var rest := Core(t, w, c);
            var e := TypeEnd(rest, 0, 0);
            Trimmed(rest) && TrimSpace(rest[..e]) == t && TrimSpace(rest[e..]) == c
  {
    var rest := Core(t, w, c);
    var e := TypeEnd(rest, 0, 0);
    if t != "" && c != "" { CorePartsBoth(t, w, c, e); } else { CorePartsOne(rest, e); }
  }

  // -- Names, and what is taken for a table constraint ------------------------------------------------------

  predicate PlainName(n: string) { n != "" && forall c <- n :: IsWordByte(c) || c == '.' }

  predicate QuotedName(n: string) {
    |n| >= 2 && n[0] == '"' && n[|n| - 1] == '"' && forall i | 0 < i < |n| - 1 :: n[i] != '"'
  }

  predicate IsName(n: string) { if n != "" && n[0] == '"' then QuotedName(n) else PlainName(n) }

  // A name that makes its definition look like a table constraint: CONSTRAINT, PRIMARY, UNIQUE, FOREIGN
  // or EXCLUDE, or anything that begins with CHECK; in quotes, anything that begins with one of the
  // five and a space, or with CHECK.
  predicate LikeConstraint(n: string)
    requires IsName(n)
  {
    var seen := Upper(if n[0] == '"' then n[1..|n| - 1] else n + " ");
    || HasPrefix(seen, "CONSTRAINT ") || HasPrefix(seen, "PRIMARY ") || HasPrefix(seen, "UNIQUE ")
    || HasPrefix(seen, "CHECK") || HasPrefix(seen, "FOREIGN ") || HasPrefix(seen, "EXCLUDE ")
  }

  // A keyword that the text after y cannot take part in is in y.
  lemma KeywordIn(y: string, z: string, kw: string)
    requires |y| < |kw| ==> z != "" && UpperChar(z[0]) != kw[|y|]
    ensures HasPrefix(Upper(y + z), kw) <==> HasPrefix(Upper(y), kw)
  {
    var u := Upper(y + z);
    if |kw| <= |y| {
      assert u[..|kw|] == Upper(y)[..|kw|];
    } else {
      assert u[|y|] == UpperChar(z[0]);
      if |kw| <= |u| { assert u[..|kw|][|y|] == u[|y|]; }
    }
  }

  // The same for a keyword with no space but at its end, and a plain name with its space.
  lemma KeywordOfName(n: string, z: string, kw: string)
    requires kw != "" && (forall i | 0 <= i < |kw| - 1 :: kw[i] != ' ')
    ensures HasPrefix(Upper(n + " " + z), kw) <==> HasPrefix(Upper(n + " "), kw)
  {
    var u := Upper(n + " " + z);
    if |kw| <= |n| + 1 {
      assert u[..|kw|] == Upper(n + " ")[..|kw|];
    } else if |kw| <= |u| {
      assert u[..|kw|][|n|] == u[|n|] == ' ';
    }
  }

  predicate Keyword(kw: string) {
    || kw == "CONSTRAINT " || kw == "PRIMARY " || kw == "UNIQUE " || kw == "CHECK" || kw == "FOREIGN "
    || kw == "EXCLUDE "
  }

  lemma KeywordChars(kw: string)
    requires Keyword(kw)
    ensures kw != "" && kw[0] != ' ' && (forall i | 0 <= i < |kw| - 1 :: kw[i] != ' ') && '"' !in kw
  {
  }

  lemma TableConstraintIs(d: string)
    ensures IsTableConstraint(d) <==> exists kw :: Keyword(kw) && HasPrefix(Upper(TrimLeftQuotes(d)), kw)
  {
    assert TABLE_KEYWORDS[0] == "CONSTRAINT " && TABLE_KEYWORDS[1] == "PRIMARY " && TABLE_KEYWORDS[2] == "UNIQUE ";
    assert TABLE_KEYWORDS[3] == "CHECK" && TABLE_KEYWORDS[4] == "FOREIGN " && TABLE_KEYWORDS[5] == "EXCLUDE ";
  }

  lemma LooksLikeConstraint(n: string, x: string)
    requires IsName(n) && x != "" && x[0] == ' '
    ensures IsTableConstraint(n + x) <==> LikeConstraint(n)
  {
    TableConstraintIs(n + x);
    var first := TrimLeftQuotes(n + x);
    var seen := if n[0] == '"' then n[1..|n| - 1] else n + " ";
    forall kw | Keyword(kw) ensures HasPrefix(Upper(first), kw) <==> HasPrefix(Upper(seen), kw) {
      KeywordChars(kw);
      if n[0] == '"' { QuotedSeen(n, x, kw); } else { PlainSeen(n, x, kw); }
    }
  }

  lemma PlainSeen(n: string, x: string, kw: string)
    requires n != "" && n[0] != '"' && x != "" && x[0] == ' '
    requires kw != "" && (forall i | 0 <= i < |kw| - 1 :: kw[i] != ' ')
    ensures HasPrefix(Upper(TrimLeftQuotes(n + x)), kw) <==> HasPrefix(Upper(n + " "), kw)
  {
    assert n + x == n + " " + x[1..];
    KeywordOfName(n, x[1..], kw);
  }

  lemma QuotedSeen(n: string, x: string, kw: string)
    requires QuotedName(n) && x != "" && x[0] == ' ' && kw != "" && kw[0] != ' ' && '"' !in kw
    ensures HasPrefix(Upper(TrimLeftQuotes(n + x)), kw) <==> HasPrefix(Upper(n[1..|n| - 1]), kw)
  {
    var inner := n[1..|n| - 1];
    assert (n + x)[1..] == inner + ("\"" + x);
    if inner == "" {
      assert |n| == 2 && (n + x)[2..] == x;
      assert (n + x)[1..][0] == '"' && (n + x)[1..][1..] == (n + x)[2..];
      assert TrimLeftQuotes(n + x) == TrimLeftQuotes((n + x)[1..]) == TrimLeftQuotes(x) == x;
      assert Upper(x)[0] == ' ';
      if |kw| <= |x| { assert Upper(x)[..|kw|][0] == ' '; }
    } else {
      assert inner[0] == n[1] != '"';
      assert TrimLeftQuotes(n + x) == inner + ("\"" + x);
      KeywordIn(inner, "\"" + x, kw);
    }
  }

  lemma {:induction false} QuoteFound(d: string, i: nat, q: nat)
    requires i <= q < |d| && d[q] == '"' && forall j | i <= j < q :: d[j] != '"'
    ensures FindQuote(d, i) == q
    decreases q - i
  {
    if i < q { QuoteFound(d, i + 1, q); }
  }

  lemma {:induction false} IdentFound(d: string, i: nat, q: nat)
    requires i <= q <= |d| && forall j | i <= j < q :: IsWordByte(d[j]) || d[j] == '.'
    requires q < |d| ==> d[q] == ' '
    ensures IdentEnd(d, i) == q
    decreases q - i
  {
    if i < q { IdentFound(d, i + 1, q); }
  }

  lemma NameEnds(n: string, x: string)
    requires IsName(n) && (x != "" ==> x[0] == ' ')
    ensures NameEnd(n + x) == |n|
  {
    var d := n + x;
    if n[0] == '"' {
      QuoteFound(d, 1, |n| - 1);
    } else {
      forall j | 0 <= j < |n| ensures IsWordByte(d[j]) || d[j] == '.' { assert d[j] == n[j] && n[j] in n; }
      IdentFound(d, 0, |n|);
    }
  }

  lemma NameIsTrimmed(n: string)
    requires IsName(n)
    ensures !IsSpace(n[0]) && !IsSpace(n[|n| - 1])
  {
    assert n[0] in n && n[|n| - 1] in n;
  }

  // -- The law ----------------------------------------------------------------------------------------------

  lemma ParsesBare(n: string, y: string, t: string, w: string, c: string)
    requires IsName(n) && IsType(t) && IsConstraints(c) && (t != "" || c != "")
    requires Blank(y) && y != "" && y[0] == ' ' && Blank(w) && (t != "" && c != "" ==> w != "")
    ensures Trimmed(n + y + Core(t, w, c))
    ensures IsTableConstraint(n + y + Core(t, w, c)) <==> LikeConstraint(n)
    ensures ParseColumn(n + y + Core(t, w, c)) == (n, t, c)
  {
    var core := Core(t, w, c);
    var x := y + core;
    assert n + y + core == n + x && x[0] == ' ';
    CoreParts(t, w, c);
    NameIsTrimmed(n);
    LooksLikeConstraint(n, x);
    NameEnds(n, x);
    assert (n + x)[|n|..] == y + core + "" && (n + x)[..|n|] == n;
    TrimPadded(y, core, "");
    assert (n + x)[|n + x| - 1] == core[|core| - 1];
  }

  lemma Parted(a: string, n: string, y: string, t: string, w: string, c: string, b: string)
    returns (y': string, b': string)
    requires Blank(y) && Blank(w) && Blank(b) && y != "" && (t != "" || c != "")
    ensures Blank(y') && Blank(b') && y' != "" && y'[0] == y[0]
    ensures a + n + y + t + w + c + b == a + (n + y' + Core(t, w, c)) + b'
  {
    y' := if t == "" then y + w else y;
    b' := if c == "" then w + b else b;
  }

  // A definition written as name, type and constraints, with white space between, is read as just
  // these; unless the name makes it look like a table constraint, when it is no column at all.
  lemma ParsesAsWritten(a: string, n: string, y: string, t: string, w: string, c: string, b: string)
    requires IsName(n) && IsType(t) && IsConstraints(c) && (t != "" || c != "")
    requires Blank(a) && Blank(y) && Blank(w) && Blank(b)
    requires y != "" && y[0] == ' ' && (t != "" && c != "" ==> w != "")
    ensures ParseColDef(a + n + y + t + w + c + b) == if LikeConstraint(n) then ("", "", "") else (n, t, c)
  {
    var y', b' := Parted(a, n, y, t, w, c, b);
    var d := n + y' + Core(t, w, c);
    ParsesBare(n, y', t, w, c);
    TrimPadded(a, d, b');
  }

  // Whatever definition is read, its type holds none of the words, and its constraints begin with one.
  lemma PartsOfAny(def: string)
    requires ParseColDef(def).0 != ""
    ensures var (_, typ, cons) := ParseColDef(def);
            IsConstraints(cons) && Trimmed(typ) && forall k | 0 <= k <= |typ| :: !ListedAt(typ, k)
  {
    var d := TrimSpace(def);
    var rest := TrimSpace(d[NameEnd(d)..]);
    var e := TypeEnd(rest, 0, 0);
    TypeEndsAtFirst(rest);
    TrimIsTrimmed(d[NameEnd(d)..]);
    TypeOfRest(rest, e);
    ConstraintsOfRest(rest, e);
  }

  lemma TypeOfRest(rest: string, e: nat)
    requires e <= |rest| && (forall k | 0 <= k < e :: !ListedAt(rest, k)) && (e < |rest| ==> ListedAt(rest, e))
    ensures var typ := TrimSpace(rest[..e]);
            Trimmed(typ) && forall k | 0 <= k <= |typ| :: !ListedAt(typ, k)
  {
    TrimIsTrimmed(rest[..e]);
    var a, b := TrimParts(rest[..e]);
    var typ := rest[a..b];
    SliceOfSlice(rest, 0, e, a, b);
    forall i | 0 <= i < a ensures rest[i] == rest[..e][..a][i] {}
    forall i | 0 <= i < a ensures !IsWordByte(rest[i]) && rest[i] != '(' && rest[i] != ')' {
      BlankIsNoWord(rest[..e][..a], i);
    }
    DepthOver(rest, 0, a);
    if b < e {
      assert rest[..e][b..][0] == rest[b];
      BlankIsNoWord(rest[..e][b..], 0);
    }
    forall k | 0 <= k < |typ| ensures !ListedAt(typ, k) { ListedOfSlice(rest, a, b, k); }
    NothingAtEnd(typ);
  }

  lemma ListedPrefixGone(rest: string, e: nat)
    requires e < |rest| && ListedAt(rest, e)
    ensures IsIdentStart(rest[e]) && ListedAt(rest[e..], 0)
  {
    var w :| Listed(w) && WordIs(rest, e, w);
    ListedLetters(w);
    ListedChars(rest, e, w, 0);
    assert rest[e..] == rest[e..|rest|];
    WordOfSlice(rest, e, |rest|, 0, w);
  }

  lemma ConstraintsOfRest(rest: string, e: nat)
    requires e <= |rest| && Trimmed(rest) && (e < |rest| ==> ListedAt(rest, e))
    ensures IsConstraints(TrimSpace(rest[e..]))
  {
    if e < |rest| {
      ListedPrefixGone(rest, e);
      assert rest[e..][0] == rest[e] && rest[e..][|rest| - e - 1] == rest[|rest| - 1];
    }
    TrimNothing(rest[e..]);
  }

  // -- Replacing the type -------------------------------------------------------------------------------------

  // joinDef.
  function JoinDef(name: string, typ: string, cons: string): string {
    name + (if typ == "" then "" else " " + typ) + (if cons == "" then "" else " " + cons)
  }

  // What ALTER COLUMN ... TYPE does.
  function Retype(typ: string): Edit { (name: string, _: string, cons: string) => JoinDef(name, typ, cons) }

  lemma JoinedParses(n: string, t: string, c: string)
    requires IsName(n) && IsType(t) && IsConstraints(c) && (t != "" || c != "")
    ensures ParseColDef(" " + JoinDef(n, t, c) + " ") == if LikeConstraint(n) then ("", "", "") else (n, t, c)
  {
    if t == "" {
      assert " " + JoinDef(n, t, c) + " " == " " + n + " " + t + "" + c + " ";
      ParsesAsWritten(" ", n, " ", t, "", c, " ");
    } else if c == "" {
      assert " " + JoinDef(n, t, c) + " " == " " + n + " " + t + "" + c + " ";
      ParsesAsWritten(" ", n, " ", t, "", c, " ");
    } else {
      assert " " + JoinDef(n, t, c) + " " == " " + n + " " + t + " " + c + " ";
      ParsesAsWritten(" ", n, " ", t, " ", c, " ");
    }
  }

  // ALTER COLUMN ... TYPE changes one definition; read again it has the new type and the name and the
  // constraints it had, exactly when its name does not make it look like a table constraint.
  lemma RetypeKeepsConstraints(ddl: string, col: string, typ: string)
    requires IsType(typ) && typ != ""
    requires ReadTable(ddl).Some? && IndexOf(ReadTable(ddl).value.defs, col).Some?
    requires IsName(ParseColDef(ReadTable(ddl).value.defs[IndexOf(ReadTable(ddl).value.defs, col).value]).0)
    ensures var t := ReadTable(ddl).value;
            var i := IndexOf(t.defs, col).value;
            var (name, _, cons) := ParseColDef(t.defs[i]);
            var def := " " + JoinDef(name, typ, cons) + " ";
            && EditedTable(ddl, col, Retype(typ)) == Some(Write(t.(defs := t.defs[i := def])))
            && (ParseColDef(def) == (name, typ, cons) <==> !LikeConstraint(name))
  {
    var t := ReadTable(ddl).value;
    var i := IndexOf(t.defs, col).value;
    var (name, _, cons) := ParseColDef(t.defs[i]);
    EditChangesOneDefinition(ddl, col, Retype(typ));
    PartsOfAny(t.defs[i]);
    JoinedParses(name, typ, cons);
  }

  // -- Types that bring constraints, and names that lose their column ----------------------------------------

  lemma ConstraintsGoOn(c: string, more: string)
    requires IsConstraints(c) && c != "" && Trimmed(more) && more != ""
    ensures IsConstraints(c + " " + more)
  {
    var s := c + " " + more;
    assert s[0..|c|] == c && s[|c|] == ' ' && s[|s| - 1] == more[|more| - 1];
    ListedOfSlice(s, 0, |c|, 0);
  }

  // A new type that holds one of the words, as DECIMALTEXT COLLATE DECIMAL does, is read as the type up to
  // it and constraints from it on, before those the column had: there the next change of type leaves them.
  lemma TypeWithConstraints(n: string, t: string, k: string, c: string)
    requires IsName(n) && !LikeConstraint(n) && IsType(t) && t != "" && IsConstraints(k) && k != "" && IsConstraints(c)
    ensures ParseColDef(" " + JoinDef(n, t + " " + k, c) + " ") == (n, t, if c == "" then k else k + " " + c)
  {
    if c == "" {
      assert JoinDef(n, t + " " + k, c) == JoinDef(n, t, k);
      JoinedParses(n, t, k);
    } else {
      ConstraintsGoOn(k, c);
      assert JoinDef(n, t + " " + k, c) == JoinDef(n, t, k + " " + c);
      JoinedParses(n, t, k + " " + c);
    }
  }

  // Any other column is found under its name, without the quotes, in letters of any case.
  lemma FoundByName(n: string, t: string, c: string, col: string)
    requires IsName(n) && !LikeConstraint(n) && IsType(t) && IsConstraints(c) && (t != "" || c != "")
    ensures Names(" " + JoinDef(n, t, c) + " ", col) <==>
              Lower(if n[0] == '"' then n[1..|n| - 1] else n) == Lower(col)
  {
    JoinedParses(n, t, c);
    NameUnquoted(n);
  }

  lemma NameUnquoted(n: string)
    requires IsName(n)
    ensures UnquoteIdent(n) == if n[0] == '"' then n[1..|n| - 1] else n
  {
    assert n[|n| - 1] in n;
    assert TrimRightSemicolons(n) == n;
    if n[0] == '"' { assert n[1..][|n[1..]| - 1] == '"' && n[1..][..|n[1..]| - 1] == n[1..|n| - 1]; }
  }

  // A column whose name makes it look like a constraint is found under no name.
  lemma LostColumn(n: string, t: string, c: string, col: string)
    requires IsName(n) && LikeConstraint(n) && IsType(t) && IsConstraints(c) && (t != "" || c != "")
    ensures !Names(" " + JoinDef(n, t, c) + " ", col)
  {
    JoinedParses(n, t, c);
  }

  lemma WordIsType(t: string)
    requires t != "" && (forall c <- t :: IsIdentStart(c)) && !Listed(Lower(t))
    ensures IsType(t)
  {
    forall i | 0 <= i < |t| ensures IsIdentStart(t[i]) { assert t[i] in t; }
    assert t[0..|t|] == t;
    forall w | Listed(w) ensures !WordIs(t, 0, w) { WordEndsWithRun(t, 0, |t|, w); }
    forall k | 0 < k <= |t| ensures InIdent(t, k) { IdentRuns(t, 0, k); }
    DepthOver(t, 0, |t|);
  }

  // So a column of letters that begins with "check", such as checksum text, is lost.
  lemma ChecksumIsLost(col: string)
    ensures !Names(" checksum text ", col)
  {
    var n, t := "checksum", "text";
    assert Upper(n + " ")[..5] == "CHECK";
    assert Lower(t) == t;
    WordIsType(t);
    LostColumn(n, t, "", col);
    assert JoinDef(n, t, "") == n + " " + t;
    assert " " + JoinDef(n, t, "") + " " == " checksum text ";
  }
}
