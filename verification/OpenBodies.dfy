/**
 When a statement's BEGIN ... END body is open: its code has more of the words BEGIN and CASE than of
 the word END (openBody in protocol/postgres/multistatement.go:108-161).
 */
module OpenBodies {
  import opened Options
  import opened Text
  import opened SqlScan
  import opened SqlAutomaton

  // Small letters, at least one.
  predicate IsWord(w: string) { w != "" && forall c <- w :: 'a' <= c <= 'z' }

  // The word w, in letters of any case, stands at i.
  predicate Spelled(s: string, i: nat, w: string) {
    && i + |w| <= |s| && Lower(s[i..i + |w|]) == w
    && !AfterWord(s, i) && (i + |w| < |s| ==> !IsWordByte(s[i + |w|]))
  }

  // What stands in [i, n) is read as code, and is not the name of a dollar tag.
  predicate Stands(s: string, i: nat, n: nat, esc: bool)
    requires i <= n <= |s|
  {
    InCode(StateAt(s, i, esc)) && (n < |s| && s[n] == '$' ==> !StateAt(s, n, esc).Tag?)
  }

  predicate WordAt(s: string, i: nat, w: string, esc: bool) {
    Spelled(s, i, w) && Stands(s, i, i + |w|, esc)
  }

  // How many positions in [i, j) it stands at.
  function Words(s: string, w: string, i: nat, j: nat, esc: bool): (n: nat)
    requires i <= j <= |s|
    decreases j - i
  {
    if i == j then 0 else (if WordAt(s, i, w, esc) then 1 else 0) + Words(s, w, i + 1, j, esc)
  }

  lemma {:induction false} WordsSplit(s: string, w: string, i: nat, m: nat, j: nat, esc: bool)
    requires i <= m <= j <= |s|
    ensures Words(s, w, i, j, esc) == Words(s, w, i, m, esc) + Words(s, w, m, j, esc)
    decreases m - i
  {
    if i < m { WordsSplit(s, w, i + 1, m, j, esc); }
  }

  lemma {:induction false} NoWords(s: string, w: string, i: nat, j: nat, esc: bool)
    requires i <= j <= |s| && forall k | i <= k < j :: !WordAt(s, k, w, esc)
    ensures Words(s, w, i, j, esc) == 0
    decreases j - i
  {
    if i < j { NoWords(s, w, i + 1, j, esc); }
  }

  lemma NotTheWord(s: string, i: nat, w: string, k: nat)
    requires IsWord(w) && i <= k < i + |w| <= |s| && !IsWordByte(s[k])
    ensures Lower(s[i..i + |w|]) != w
  {
    assert s[i..i + |w|][k - i] == s[k];
    assert Lower(s[i..i + |w|])[k - i] == LowerChar(s[k]) && w[k - i] in w;
  }

  // -- What the scanner jumps over holds no word ---------------------------------------------

  lemma {:induction false} TagChars(s: string, start: nat, j: nat)
    requires start < j <= |s| && TagEnd(s, start, j).Some?
    ensures var e := TagEnd(s, start, j).value;
            s[e - 1] == '$' && forall k | j <= k < e - 1 :: IsWordByte(s[k])
    decreases |s| - j
  {
    if s[j] != '$' { TagChars(s, start, j + 1); }
  }

  lemma TagIsRead(s: string, i: nat, esc: bool) returns (n: nat)
    requires i < |s| && InTag(s, i, esc)
    ensures i <= n < |s| && s[n] == '$' && StateAt(s, n, esc).Tag?
    ensures forall k | i <= k < n :: IsWordByte(s[k])
  {
    var start := i - |StateAt(s, i, esc).tag|;
    TagRun(s, start, i, esc);
    TagChars(s, start, i);
    n := TagEnd(s, start, i).value - 1;
    assert InTag(s, n, esc);
  }

  lemma NoWordInTag(s: string, i: nat, w: string, esc: bool)
    requires i < |s| && IsWord(w) && InTag(s, i, esc)
    ensures !WordAt(s, i, w, esc)
  {
    var n := TagIsRead(s, i, esc);
    if n < i + |w| <= |s| { NotTheWord(s, i, w, n); }
  }

  lemma NoWordWhereInert(s: string, i: nat, w: string, esc: bool)
    requires i < |s| && IsWord(w) && Inert(s, i, esc)
    ensures !WordAt(s, i, w, esc)
  {
    if InTag(s, i, esc) {
      NoWordInTag(s, i, w, esc);
    } else if !IsWordByte(s[i]) && i + |w| <= |s| {
      NotTheWord(s, i, w, i);
    }
  }

  lemma NoWordsSkipped(s: string, i: nat, j: nat, w: string, esc: bool)
    requires IsWord(w) && Skips(s, i, j, esc)
    ensures Words(s, w, i, j, esc) == 0
  {
    forall k | i <= k < j ensures !WordAt(s, k, w, esc) { NoWordWhereInert(s, k, w, esc); }
    NoWords(s, w, i, j, esc);
  }

  // -- A word is a maximal run of word bytes ---------------------------------------------------

  lemma {:induction false} RunSettles(s: string, j: nat, esc: bool)
    requires j <= |s| && Settled(s, j, esc) && !StateAt(s, j, esc).Dollar?
    ensures Settled(s, WordRun(s, j), esc) && !StateAt(s, WordRun(s, j), esc).Dollar?
    ensures forall k | j <= k < WordRun(s, j) :: IsWordByte(s[k])
    ensures WordRun(s, j) < |s| ==> !IsWordByte(s[WordRun(s, j)])
    decreases |s| - j
  {
    if j < |s| && IsWordByte(s[j]) {
      JumpsAgree(s, j, esc);
      AtTwo(s, j, '-', '-');
      AtTwo(s, j, '/', '*');
      RunSettles(s, j + 1, esc);
    }
  }

  lemma NoTagEndsHere(s: string, n: nat, esc: bool)
    requires n < |s| && Settled(s, n, esc) && s[n] == '$'
    ensures !StateAt(s, n, esc).Tag?
  {
  }

  lemma RunIsSpelled(s: string, i: nat, n: nat, w: string)
    requires i < n <= |s| && !AfterWord(s, i) && IsWord(w)
    requires forall k | i <= k < n :: IsWordByte(s[k])
    requires n < |s| ==> !IsWordByte(s[n])
    ensures Spelled(s, i, w) <==> Lower(s[i..n]) == w
  {
    if n < i + |w| <= |s| { NotTheWord(s, i, w, n); }
  }

  lemma RunStands(s: string, i: nat, esc: bool) returns (n: nat)
    requires i < |s| && IsWordByte(s[i]) && Settled(s, i, esc)
    ensures n == WordRun(s, i + 1) && i < n <= |s| && Stands(s, i, n, esc)
    ensures forall k | i <= k < n :: IsWordByte(s[k])
    ensures n < |s| ==> !IsWordByte(s[n])
  {
    n := WordRun(s, i + 1);
    JumpsAgree(s, i, esc);
    RunSettles(s, i, esc);
    assert WordRun(s, i) == n;
    if n < |s| && s[n] == '$' { NoTagEndsHere(s, n, esc); }
  }

  lemma WordIsRun(s: string, i: nat, w: string, esc: bool)
    requires i < |s| && IsWordByte(s[i]) && !AfterWord(s, i) && Settled(s, i, esc) && IsWord(w)
    ensures var n := WordRun(s, i + 1);
            Words(s, w, i, n, esc) == if Lower(s[i..n]) == w then 1 else 0
  {
    var n := RunStands(s, i, esc);
    RunIsSpelled(s, i, n, w);
    assert |Lower(s[i..n])| == n - i;
    assert WordAt(s, i, w, esc) <==> Lower(s[i..n]) == w;
    forall k | i < k < n ensures !WordAt(s, k, w, esc) { assert AfterWord(s, k); }
    NoWords(s, w, i + 1, n, esc);
  }

  // -- What openBody counts ----------------------------------------------------------------------

  // BEGINs and CASEs less ENDs among the words of the code in [i, j).
  function Balance(s: string, i: nat, j: nat): int
    requires i <= j <= |s|
  {
    Words(s, "begin", i, j, false) + Words(s, "case", i, j, false) - Words(s, "end", i, j, false)
  }

  lemma BalanceSplit(s: string, i: nat, m: nat, j: nat)
    requires i <= m <= j <= |s|
    ensures Balance(s, i, j) == Balance(s, i, m) + Balance(s, m, j)
  {
    WordsSplit(s, "begin", i, m, j, false);
    WordsSplit(s, "case", i, m, j, false);
    WordsSplit(s, "end", i, m, j, false);
  }

  lemma WordToken(s: string, i: nat)
    requires i < |s| && IsWordByte(s[i]) && !AfterWord(s, i) && Settled(s, i, false)
    ensures var n := WordRun(s, i + 1);
            && Settled(s, n, false) && !StateAt(s, n, false).Dollar?
            && Balance(s, i, n) == WordWeight(Lower(s[i..n]))
  {
    WordIsRun(s, i, "begin", false);
    WordIsRun(s, i, "case", false);
    WordIsRun(s, i, "end", false);
    JumpsAgree(s, i, false);
    RunSettles(s, i, false);
  }

  lemma JumpToken(s: string, i: nat)
    requires i < |s| && !(IsWordByte(s[i]) && !AfterWord(s, i)) && Settled(s, i, false)
    ensures Settled(s, Jump(s, i, false), false)
    ensures StateAt(s, Jump(s, i, false), false).Dollar? <==> Unending(s, i)
    ensures Balance(s, i, Jump(s, i, false)) == 0
  {
    JumpsAgree(s, i, false);
    var n := Jump(s, i, false);
    NoWordHere(s, i, "begin");
    NoWordHere(s, i, "case");
    NoWordHere(s, i, "end");
    NoWordsSkipped(s, i + 1, n, "begin", false);
    NoWordsSkipped(s, i + 1, n, "case", false);
    NoWordsSkipped(s, i + 1, n, "end", false);
  }

  lemma NoWordHere(s: string, i: nat, w: string)
    requires i < |s| && !(IsWordByte(s[i]) && !AfterWord(s, i)) && IsWord(w)
    ensures !WordAt(s, i, w, false)
  {
    if !IsWordByte(s[i]) && i + |w| <= |s| { NotTheWord(s, i, w, i); }
  }

  lemma TokenJumps(s: string, i: nat)
    requires i < |s| && !(IsWordByte(s[i]) && !AfterWord(s, i))
    ensures BodyToken(s, i) == if Unending(s, i) then None else Some((Jump(s, i, false), 0))
  {
    AtTwo(s, i, '-', '-');
    AtTwo(s, i, '/', '*');
  }

  lemma TokenIsWord(s: string, i: nat)
    requires i < |s| && IsWordByte(s[i]) && !AfterWord(s, i)
    ensures BodyToken(s, i) == Some((WordRun(s, i + 1), WordWeight(Lower(s[i..WordRun(s, i + 1)]))))
  {
    AtTwo(s, i, '-', '-');
    AtTwo(s, i, '/', '*');
  }

  // One token, by what the automaton shows of it.
  lemma TokenCounts(s: string, i: nat) returns (n: nat, endless: bool)
    requires i < |s| && Settled(s, i, false)
    ensures i < n <= |s| && Settled(s, n, false) && (StateAt(s, n, false).Dollar? <==> endless)
    ensures endless ==> n == |s|
    ensures BodyToken(s, i) == if endless then None else Some((n, Balance(s, i, n)))
  {
    if IsWordByte(s[i]) && !AfterWord(s, i) {
      TokenIsWord(s, i);
      WordToken(s, i);
      n, endless := WordRun(s, i + 1), false;
    } else {
      TokenJumps(s, i);
      JumpToken(s, i);
      n, endless := Jump(s, i, false), Unending(s, i);
    }
  }

  lemma DepthGoesOn(s: string, i: nat, depth: int) returns (n: nat, endless: bool)
    requires i < |s| && Settled(s, i, false)
    ensures i < n <= |s| && Settled(s, n, false) && (StateAt(s, n, false).Dollar? <==> endless)
    ensures endless ==> n == |s|
    ensures BodyDepth(s, i, depth) == if endless then None else BodyDepth(s, n, depth + Balance(s, i, n))
  {
    n, endless := TokenCounts(s, i);
  }

  lemma {:induction false} DepthCounts(s: string, i: nat, depth: int)
    requires i <= |s| && Settled(s, i, false) && !StateAt(s, i, false).Dollar?
    ensures BodyDepth(s, i, depth) ==
      if StateAt(s, |s|, false).Dollar? then None else Some(depth + Balance(s, i, |s|))
    decreases |s| - i
  {
    if i < |s| { DepthStep(s, i, depth); }
  }

  lemma {:induction false} DepthStep(s: string, i: nat, depth: int)
    requires i < |s| && Settled(s, i, false)
    ensures BodyDepth(s, i, depth) ==
      if StateAt(s, |s|, false).Dollar? then None else Some(depth + Balance(s, i, |s|))
    decreases |s| - i, 0
  {
    var n, endless := DepthGoesOn(s, i, depth);
    if !endless {
      DepthCounts(s, n, depth + Balance(s, i, n));
      BalanceSplit(s, i, n, |s|);
    }
  }

  // A body is open exactly in a CREATE TRIGGER, FUNCTION or PROCEDURE whose code, no E'...' string
  // being known, has more of the words BEGIN and CASE than of END and does not end in a
  // dollar-quoted body without its closing tag.
  lemma OpenBodyCounts(s: string)
    ensures OpenBody(s) <==>
      && CreatesBody(Fields(Upper(s[ExecutableStart(s, 0)..])))
      && !StateAt(s, |s|, false).Dollar?
      && Words(s, "begin", 0, |s|, false) + Words(s, "case", 0, |s|, false) > Words(s, "end", 0, |s|, false)
  {
    DepthCounts(s, 0, 0);
  }

  // No E'...' string is read in it.
  ghost predicate NoEscapes(s: string) { forall i | 0 <= i <= |s| :: !StateAt(s, i, true).Escape? }

  lemma {:induction false} StatesAgree(s: string, i: nat)
    requires NoEscapes(s) && i <= |s|
    ensures StateAt(s, i, true) == StateAt(s, i, false)
  {
    if i > 0 {
      StatesAgree(s, i - 1);
      assert !StateAt(s, i, true).Escape?;
    }
  }

  lemma {:induction false} WordsAgree(s: string, w: string, i: nat, j: nat)
    requires NoEscapes(s) && i <= j <= |s|
    ensures Words(s, w, i, j, true) == Words(s, w, i, j, false)
    decreases j - i
  {
    if i < j {
      StatesAgree(s, i);
      if i + |w| <= |s| { StatesAgree(s, i + |w|); }
      WordsAgree(s, w, i + 1, j);
    }
  }

  // Where the text has no such string, that is the code as the splitter reads it.
  lemma OpenBodyCountsCode(s: string)
    requires NoEscapes(s)
    ensures OpenBody(s) <==>
      && CreatesBody(Fields(Upper(s[ExecutableStart(s, 0)..])))
      && !StateAt(s, |s|, true).Dollar?
      && Words(s, "begin", 0, |s|, true) + Words(s, "case", 0, |s|, true) > Words(s, "end", 0, |s|, true)
  {
    OpenBodyCounts(s);
    StatesAgree(s, |s|);
    WordsAgree(s, "begin", 0, |s|);
    WordsAgree(s, "case", 0, |s|);
    WordsAgree(s, "end", 0, |s|);
  }

  // What such a statement begins with.
  ghost predicate Heads(f: seq<string>, r: seq<string>, t: seq<string>, k: string) {
    && (r == [] || r == ["OR", "REPLACE"])
    && (t == [] || t == ["TEMP"] || t == ["TEMPORARY"])
    && (k == "TRIGGER" || k == "FUNCTION" || k == "PROCEDURE")
    && ["CREATE"] + r + t + [k] <= f
  }

  lemma CreatesBodyMeans(f: seq<string>)
    ensures CreatesBody(f) <==> exists r, t, k :: Heads(f, r, t, k)
  {
    if CreatesBody(f) { var r, t, k := HeadOf(f); }
    if r, t, k :| Heads(f, r, t, k) { HeadCreates(f, r, t, k); }
  }

  lemma HeadOf(f: seq<string>) returns (r: seq<string>, t: seq<string>, k: string)
    requires CreatesBody(f)
    ensures Heads(f, r, t, k)
  {
    r := if |f| > 3 && f[1] == "OR" && f[2] == "REPLACE" then ["OR", "REPLACE"] else [];
    var g := f[1 + |r|..];
    t := if |g| > 1 && (g[0] == "TEMP" || g[0] == "TEMPORARY") then [g[0]] else [];
    k := g[|t|];
    assert f[..1 + |r| + |t| + 1] == ["CREATE"] + r + t + [k];
  }

  lemma HeadCreates(f: seq<string>, r: seq<string>, t: seq<string>, k: string)
    requires Heads(f, r, t, k)
    ensures CreatesBody(f)
  {
    var rest := f[1 + |r| + |t| + 1..];
    assert f == ["CREATE"] + r + t + [k] + rest;
    assert f[1..] == r + (t + ([k] + rest));
    assert (r + (t + ([k] + rest)))[|r|..] == t + ([k] + rest);
    assert (t + ([k] + rest))[|t|..] == [k] + rest;
  }

  // -- A piece by itself has the words it has in the text ---------------------------------------

  lemma PieceSpelled(s: string, a: nat, b: nat, w: string, k: nat)
    requires a <= b <= |s| && k < b - a && IsWord(w)
    requires a > 0 ==> !IsWordByte(s[a - 1])
    requires b < |s| ==> !IsWordByte(s[b])
    ensures Spelled(s[a..b], k, w) <==> Spelled(s, a + k, w)
  {
    var p := s[a..b];
    if k > 0 { assert p[k - 1] == s[a + k - 1]; }
    if k + |w| <= |p| {
      SliceOfSlice(s, a, b, k, k + |w|);
      if k + |w| < |p| { assert p[k + |w|] == s[a + k + |w|]; }
    } else if a + k + |w| <= |s| {
      NotTheWord(s, a + k, w, b);
    }
  }

  lemma StandsAlike(s: string, i: nat, n: nat, p: string, k: nat, m: nat, esc: bool)
    requires i <= n <= |s| && k <= m <= |p|
    requires StateAt(s, i, esc) == StateAt(p, k, esc) && StateAt(s, n, esc) == StateAt(p, m, esc)
    requires (n < |s| && s[n] == '$') == (m < |p| && p[m] == '$')
    ensures Stands(s, i, n, esc) <==> Stands(p, k, m, esc)
  {
  }

  // s[a..b] begins in code, apart from what comes before and after it.
  ghost predicate Apart(s: string, a: nat, b: nat, esc: bool) {
    && a <= b <= |s| && StateAt(s, a, esc) == Code
    && (a > 0 ==> IsSpace(s[a - 1]) || s[a - 1] == ';')
    && (b < |s| ==> !IsWordByte(s[b]) && s[b] != '$')
  }

  lemma DollarAlike(s: string, a: nat, b: nat, m: nat)
    requires a <= b <= |s| && m <= b - a && (b < |s| ==> s[b] != '$')
    ensures (a + m < |s| && s[a + m] == '$') == (m < |s[a..b]| && s[a..b][m] == '$')
  {
  }

  lemma PieceStands(s: string, a: nat, b: nat, k: nat, m: nat, esc: bool)
    requires Apart(s, a, b, esc) && k <= m <= b - a
    ensures Stands(s, a + k, a + m, esc) <==> Stands(s[a..b], k, m, esc)
  {
    DollarAlike(s, a, b, m);
    SameStates(s, a, b, k, esc);
    SameStates(s, a, b, m, esc);
    StandsAlike(s, a + k, a + m, s[a..b], k, m, esc);
  }

  lemma PieceWord(s: string, a: nat, b: nat, w: string, k: nat, esc: bool)
    requires Apart(s, a, b, esc) && k < b - a && IsWord(w)
    ensures WordAt(s[a..b], k, w, esc) <==> WordAt(s, a + k, w, esc)
  {
    PieceSpelled(s, a, b, w, k);
    if k + |w| <= b - a { PieceStands(s, a, b, k, k + |w|, esc); }
  }

  lemma PieceWordsStep(s: string, a: nat, b: nat, w: string, k: nat, esc: bool)
    requires Apart(s, a, b, esc) && k < b - a && IsWord(w)
    requires Words(s[a..b], w, k + 1, b - a, esc) == Words(s, w, a + k + 1, b, esc)
    ensures Words(s[a..b], w, k, b - a, esc) == Words(s, w, a + k, b, esc)
  {
    PieceWord(s, a, b, w, k, esc);
  }

  lemma {:induction false} PieceWords(s: string, a: nat, b: nat, w: string, k: nat, esc: bool)
    requires Apart(s, a, b, esc) && k <= b - a && IsWord(w)
    ensures Words(s[a..b], w, k, b - a, esc) == Words(s, w, a + k, b, esc)
    decreases b - a - k
  {
    if k < b - a {
      PieceWords(s, a, b, w, k + 1, esc);
      PieceWordsStep(s, a, b, w, k, esc);
    }
  }
}
