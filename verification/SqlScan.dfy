/**
 The skip-ahead functions of the statement splitter: past a quoted run, a comment, a dollar-quoted
 body (protocol/postgres/multistatement.go, blank.go and skipQuoted in defaultexpr.go). Each is a
 function of the text and an index, with the source's loop proved to compute it.
 */
module SqlScan {
  import opened Options
  import opened Text

  // The index past the quoted run whose opening quote is at j - 1; a doubled quote stays inside.
  function SkipQuoted(s: string, j: nat, q: char): (r: nat)
    requires j <= |s|
    ensures j <= r <= |s|
    decreases |s| - j
  {
    if j == |s| then j
    else if s[j] != q then SkipQuoted(s, j + 1, q)
    else if j + 1 < |s| && s[j + 1] == q then SkipQuoted(s, j + 2, q)
    else j + 1
  }

  // The same past an E'...' string, where a backslash escapes the character after it.
  function SkipEscaped(s: string, j: nat): (r: nat)
    requires j <= |s|
    ensures j <= r <= |s|
    decreases |s| - j
  {
    if j == |s| then j
    else if s[j] == '\\' then (if j + 1 < |s| then SkipEscaped(s, j + 2) else |s|)
    else if s[j] != '\'' then SkipEscaped(s, j + 1)
    else if j + 1 < |s| && s[j + 1] == '\'' then SkipEscaped(s, j + 2)
    else j + 1
  }

  // Past the newline ending a line comment, or the end of the text.
  function SkipLine(s: string, j: nat): (r: nat)
    requires j <= |s|
    ensures j <= r <= |s|
    decreases |s| - j
  {
    if j == |s| then j else if s[j] == '\n' then j + 1 else SkipLine(s, j + 1)
  }

  // Past a block comment that is `depth` deep at j, and whether it was closed.
  function SkipBlock(s: string, j: nat, depth: int): (r: (nat, bool))
    requires j <= |s|
    ensures j <= r.0 <= |s|
    ensures At(s, j, "/*") ==> j + 2 <= r.0
    decreases |s| - j
  {
    if j == |s| then (j, false)
    else if At(s, j, "/*") then SkipBlock(s, j + 2, depth + 1)
    else if At(s, j, "*/") then (if depth - 1 == 0 then (j + 2, true) else SkipBlock(s, j + 2, depth - 1))
    else SkipBlock(s, j + 1, depth)
  }

  // Where the $tag$ whose first $ is at `start` ends, reading on from j, if it is one.
  function TagEnd(s: string, start: nat, j: nat): (r: Option<nat>)
    requires start < j <= |s|
    ensures r.Some? ==> j < r.value <= |s| && s[r.value - 1] == '$'
    decreases |s| - j
  {
    if j == |s| then None
    else if s[j] == '$' then Some(j + 1)
    else if !IsWordByte(s[j]) || (j == start + 1 && IsDigit(s[j])) then None
    else TagEnd(s, start, j + 1)
  }

  predicate AfterWord(s: string, i: nat)
    requires i <= |s|
  {
    i > 0 && IsWordByte(s[i - 1])
  }

  // The end of the dollar tag opening at i, or None when the $ starts something else.
  function DollarTag(s: string, i: nat): (r: Option<nat>)
    requires i < |s|
    ensures r.Some? ==> i + 2 <= r.value <= |s|
  {
    if AfterWord(s, i) then None else TagEnd(s, i, i + 1)
  }

  // The index past the body of the tag s[i..e], if its closing tag is there.
  function BodyEnd(s: string, i: nat, e: nat): (r: Option<nat>)
    requires i < e <= |s|
    ensures r.Some? ==> e < r.value <= |s|
  {
    var j := IndexFrom(s, s[i..e], e);
    if j.Some? then Some(j.value + (e - i)) else None
  }

  // The first character that is not white space, a semicolon or part of a comment.
  function ExecutableStart(s: string, i: nat): (r: nat)
    requires i <= |s|
    ensures i <= r <= |s|
    decreases |s| - i
  {
    if i == |s| then i
    else if IsSpace(s[i]) || s[i] == ';' then ExecutableStart(s, i + 1)
    else if At(s, i, "--") then ExecutableStart(s, SkipLine(s, i + 2))
    else if At(s, i, "/*") then
      var (j, closed) := SkipBlock(s, i, 0);
      if closed then ExecutableStart(s, j) else i
    else i
  }

  predicate IsBlankStatement(s: string) { ExecutableStart(s, 0) == |s| }

  // -- Whether a CREATE TRIGGER, FUNCTION or PROCEDURE body is open -------------------

  function WordRun(s: string, i: nat): (r: nat)
    requires i <= |s|
    ensures i <= r <= |s|
    decreases |s| - i
  {
    if i < |s| && IsWordByte(s[i]) then WordRun(s, i + 1) else i
  }

  function WordWeight(w: string): int {
    if w == "begin" || w == "case" then 1 else if w == "end" then -1 else 0
  }

  function DollarToken(s: string, i: nat): (r: Option<(nat, int)>)
    requires i < |s|
    ensures r.Some? ==> i < r.value.0 <= |s|
  {
    var e := DollarTag(s, i);
    if e.None? then Some((i + 1, 0))
    else
      var b := BodyEnd(s, i, e.value);
      if b.None? then None else Some((b.value, 0))
  }

  // Past the token at i, with the depth it adds; None in an unterminated dollar-quoted body.
  function BodyToken(s: string, i: nat): (r: Option<(nat, int)>)
    requires i < |s|
    ensures r.Some? ==> i < r.value.0 <= |s|
  {
    if s[i] == '\'' || s[i] == '"' then Some((SkipQuoted(s, i + 1, s[i]), 0))
    else if At(s, i, "--") then Some((SkipLine(s, i + 2), 0))
    else if At(s, i, "/*") then Some((SkipBlock(s, i, 0).0, 0))
    else if s[i] == '$' then DollarToken(s, i)
    else if IsWordByte(s[i]) && !AfterWord(s, i) then
      Some((WordRun(s, i + 1), WordWeight(Lower(s[i..WordRun(s, i + 1)]))))
    else Some((i + 1, 0))
  }

  // BEGINs and CASEs less ENDs from i on.
  function BodyDepth(s: string, i: nat, depth: int): Option<int>
    requires i <= |s|
    decreases |s| - i
  {
    if i == |s| then Some(depth)
    else
      var t := BodyToken(s, i);
      if t.None? then None else BodyDepth(s, t.value.0, depth + t.value.1)
  }

  predicate CreatesBody(f: seq<string>) {
    if |f| < 2 || f[0] != "CREATE" then false
    else
      var f1 := f[1..];
      var f2 := if |f1| > 2 && f1[0] == "OR" && f1[1] == "REPLACE" then f1[2..] else f1;
      var f3 := if |f2| > 1 && (f2[0] == "TEMP" || f2[0] == "TEMPORARY") then f2[1..] else f2;
      |f3| > 0 && (f3[0] == "TRIGGER" || f3[0] == "FUNCTION" || f3[0] == "PROCEDURE")
  }

  predicate DeepAtEnd(s: string) {
    BodyDepth(s, 0, 0).Some? && BodyDepth(s, 0, 0).value > 0
  }

  predicate OpenBody(s: string) {
    CreatesBody(Fields(Upper(s[ExecutableStart(s, 0)..]))) && DeepAtEnd(s)
  }

  // -- The source's loops ----------------------------------------------------------------

  method SkipQuotedLoop(s: string, start: nat, q: char) returns (i: nat)
    requires start < |s|
    ensures i == SkipQuoted(s, start + 1, q)
  {
    i := start + 1;
    while i < |s|
      invariant i <= |s| && SkipQuoted(s, i, q) == SkipQuoted(s, start + 1, q)
    {
      if s[i] == q {
        if i + 1 < |s| && s[i + 1] == q {
          i := i + 2;
          continue;
        }
        return i + 1;
      }
      i := i + 1;
    }
  }

  method SkipEscapeString(s: string, start: nat) returns (r: nat)
    requires start < |s|
    ensures r == SkipEscaped(s, start + 1)
  {
    var j := start + 1;
    while j < |s|
      invariant if j <= |s| then SkipEscaped(s, j) == SkipEscaped(s, start + 1) else SkipEscaped(s, start + 1) == |s|
    {
      if s[j] == '\\' {
        j := j + 1;
      } else if s[j] == '\'' {
        if j + 1 < |s| && s[j + 1] == '\'' {
          j := j + 1;
        } else {
          return j + 1;
        }
      }
      j := j + 1;
    }
    return |s|;
  }

  method SkipBlockComment(s: string, start: nat) returns (end: nat, closed: bool)
    requires start <= |s|
    ensures (end, closed) == SkipBlock(s, start, 0)
  {
    var depth, i := 0, start;
    while i < |s|
      invariant i <= |s| && SkipBlock(s, i, depth) == SkipBlock(s, start, 0)
    {
      if At(s, i, "/*") {
        depth := depth + 1;
        i := i + 2;
      } else if At(s, i, "*/") {
        depth := depth - 1;
        i := i + 2;
        if depth == 0 {
          return i, true;
        }
      } else {
        i := i + 1;
      }
    }
    return |s|, false;
  }

  // The tag itself, or "" when the $ starts something else.
  method DollarTagLoop(s: string, i: nat) returns (tag: string)
    requires i < |s|
    ensures tag == if DollarTag(s, i).Some? then s[i..DollarTag(s, i).value] else ""
  {
    if i > 0 && IsWordByte(s[i - 1]) {
      return "";
    }
    var j := i + 1;
    while j < |s| && s[j] != '$'
      invariant i < j <= |s| && TagEnd(s, i, j) == TagEnd(s, i, i + 1)
    {
      if !IsWordByte(s[j]) || (j == i + 1 && IsDigit(s[j])) {
        return "";
      }
      j := j + 1;
    }
    if j >= |s| {
      return "";
    }
    return s[i..j + 1];
  }

  method ExecutableStartLoop(s: string) returns (i: nat)
    ensures i == ExecutableStart(s, 0)
  {
    i := 0;
    while i < |s|
      invariant i <= |s| && ExecutableStart(s, i) == ExecutableStart(s, 0)
    {
      if IsSpace(s[i]) || s[i] == ';' {
        i := i + 1;
      } else if At(s, i, "--") {
        LineFromOpening(s, i);
        i := SkipLine(s, i);
      } else if At(s, i, "/*") {
        var j, closed := SkipBlockComment(s, i);
        if !closed {
          return i;
        }
        i := j;
      } else {
        return i;
      }
    }
  }

  // The search for the newline may as well start at the comment's own dashes.
  lemma LineFromOpening(s: string, i: nat)
    requires At(s, i, "--")
    ensures SkipLine(s, i) == SkipLine(s, i + 2)
  {
    assert s[i] == s[i..i + 2][0] == '-' && s[i + 1] == s[i..i + 2][1] == '-';
    assert SkipLine(s, i) == SkipLine(s, i + 1);
  }

  method BodyTokenAt(stmt: string, i: nat) returns (r: Option<(nat, int)>)
    requires i < |stmt|
    ensures r == BodyToken(stmt, i)
  {
    if stmt[i] == '\'' || stmt[i] == '"' {
      var j := SkipQuotedLoop(stmt, i, stmt[i]);
      return Some((j, 0));
    } else if At(stmt, i, "--") {
      LineFromOpening(stmt, i);
      return Some((SkipLine(stmt, i), 0));
    } else if At(stmt, i, "/*") {
      var j, _ := SkipBlockComment(stmt, i);
      return Some((j, 0));
    } else if stmt[i] == '$' {
      var tag := DollarTagLoop(stmt, i);
      if tag == "" {
        return Some((i + 1, 0));
      }
      var j := IndexFrom(stmt, tag, i + |tag|);
      return if j.None? then None else Some((j.value + |tag|, 0));
    } else if IsWordByte(stmt[i]) && (i == 0 || !IsWordByte(stmt[i - 1])) {
      var j := i;
      while j < |stmt| && IsWordByte(stmt[j])
        invariant i <= j <= |stmt| && WordRun(stmt, j) == WordRun(stmt, i)
      {
        j := j + 1;
      }
      return Some((j, WordWeight(Lower(stmt[i..j]))));
    }
    return Some((i + 1, 0));
  }

  method OpenBodyLoop(stmt: string) returns (open: bool)
    ensures open == OpenBody(stmt)
  {
    var start := ExecutableStartLoop(stmt);
    if !CreatesBody(Fields(Upper(stmt[start..]))) {
      return false;
    }
    open := DepthLoop(stmt);
  }

  method DepthLoop(stmt: string) returns (open: bool)
    ensures open == DeepAtEnd(stmt)
  {
    var depth, i := 0, 0;
    while i < |stmt|
      invariant i <= |stmt| && BodyDepth(stmt, i, depth) == BodyDepth(stmt, 0, 0)
    {
      var t := BodyTokenAt(stmt, i);
      if t.None? {
        return false;
      }
      i, depth := t.value.0, depth + t.value.1;
    }
    return depth > 0;
  }
}
