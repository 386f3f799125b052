/** Byte strings, and the library functions on them that the scanners call, for ASCII text. */
module Text {
  import opened Options

  predicate IsSpace(c: char) {
    c == ' ' || c == '\t' || c == '\n' || c == '\r' || c == '\U{0B}' || c == '\U{0C}'
  }

  predicate IsDigit(c: char) { '0' <= c <= '9' }

  predicate IsIdentStart(c: char) { c == '_' || 'a' <= c <= 'z' || 'A' <= c <= 'Z' }

  predicate IsWordByte(c: char) { IsIdentStart(c) || IsDigit(c) }

  function UpperChar(c: char): char { if 'a' <= c <= 'z' then c - 'a' + 'A' else c }

  function LowerChar(c: char): char { if 'A' <= c <= 'Z' then c - 'A' + 'a' else c }

  function Upper(s: string): string { seq(|s|, i requires 0 <= i < |s| => UpperChar(s[i])) }

  function Lower(s: string): string { seq(|s|, i requires 0 <= i < |s| => LowerChar(s[i])) }

  // strings.TrimLeft, strings.TrimRight and strings.TrimSpace of white space.
  function TrimLeft(s: string): string {
    if s != "" && IsSpace(s[0]) then TrimLeft(s[1..]) else s
  }

  function TrimRight(s: string): string {
    if s != "" && IsSpace(s[|s| - 1]) then TrimRight(s[..|s| - 1]) else s
  }

  function TrimSpace(s: string): string { TrimRight(TrimLeft(s)) }

  // strings.HasPrefix of s[i..].
  predicate At(s: string, i: nat, pat: string) {
    i + |pat| <= |s| && s[i..i + |pat|] == pat
  }

  // strings.Index of pat at or after i.
  function IndexFrom(s: string, pat: string, i: nat): (r: Option<nat>)
    ensures r.Some? ==> i <= r.value && At(s, r.value, pat)
    ensures forall j :: i <= j < (if r.Some? then r.value else |s|) ==> !At(s, j, pat)
    decreases |s| - i
  {
    if At(s, i, pat) then Some(i)
    else if i >= |s| then None
    else IndexFrom(s, pat, i + 1)
  }

  // strings.Fields.
  function Fields(s: string): seq<string>
    decreases |s|
  {
    if s == "" then []
    else if IsSpace(s[0]) then Fields(s[1..])
    else [s[..WordEnd(s, 1)]] + Fields(s[WordEnd(s, 1)..])
  }

  function WordEnd(s: string, i: nat): (r: nat)
    requires i <= |s|
    ensures i <= r <= |s|
    decreases |s| - i
  {
    if i < |s| && !IsSpace(s[i]) then WordEnd(s, i + 1) else i
  }

  // strings.Join.
  function Join(parts: seq<string>, sep: string): string
  {
    if parts == [] then ""
    else if |parts| == 1 then parts[0]
    else parts[0] + sep + Join(parts[1..], sep)
  }

  predicate Blank(s: string) { forall c <- s :: IsSpace(c) }

  // s from i on reads as t from j on.
  predicate SameTail(s: string, i: nat, t: string, j: nat) {
    i <= |s| && j <= |t| && s[i..] == t[j..]
  }

  lemma SameTailStep(s: string, i: nat, t: string, j: nat, n: nat)
    requires SameTail(s, i, t, j) && i + n <= |s|
    ensures j + n <= |t| && SameTail(s, i + n, t, j + n)
    ensures forall k :: i <= k < |s| ==> s[k] == t[k - i + j]
  {
    assert |s| - i == |t| - j;
    assert s[i + n..] == s[i..][n..] && t[j + n..] == t[j..][n..];
    forall k | i <= k < |s| ensures s[k] == t[k - i + j] {
      assert s[k] == s[i..][k - i] && t[k - i + j] == t[j..][k - i];
    }
  }

  lemma TailMoves(s: string, i: nat, t: string, j: nat, n: nat)
    requires SameTail(s, i, t, j) && i + n <= |s|
    ensures j + n <= |t| && SameTail(s, i + n, t, j + n)
  {
    SameTailStep(s, i, t, j, n);
  }

  lemma SliceOfSlice(s: string, a: nat, b: nat, m: nat, n: nat)
    requires a <= b <= |s| && m <= n <= b - a
    ensures s[a..b][m..n] == s[a + m..a + n]
  {
    forall k | 0 <= k < n - m ensures s[a..b][m..n][k] == s[a + m..a + n][k] {
      assert s[a..b][m + k] == s[a + m + k];
    }
  }

  // What TrimSpace takes off, and that it takes off all it can.
  lemma TrimParts(s: string) returns (a: nat, b: nat)
    ensures a <= b <= |s| && TrimSpace(s) == s[a..b]
    ensures Blank(s[..a]) && Blank(s[b..])
  {
    a := TrimLeftParts(s);
    var n := TrimRightParts(s[a..]);
    b := a + n;
    assert s[a..][..n] == s[a..b] && s[a..][n..] == s[b..];
  }

  lemma {:induction false} TrimLeftParts(s: string) returns (a: nat)
    ensures a <= |s| && TrimLeft(s) == s[a..] && Blank(s[..a])
    ensures a < |s| ==> !IsSpace(s[a])
    decreases |s|
  {
    if s != "" && IsSpace(s[0]) {
      var n := TrimLeftParts(s[1..]);
      a := n + 1;
      assert s[1..][n..] == s[a..] && s[..a] == [s[0]] + s[1..][..n];
    } else {
      a := 0;
    }
  }

  lemma {:induction false} TrimRightParts(s: string) returns (b: nat)
    ensures b <= |s| && TrimRight(s) == s[..b] && Blank(s[b..])
    ensures b > 0 ==> !IsSpace(s[b - 1])
    decreases |s|
  {
    if s != "" && IsSpace(s[|s| - 1]) {
      b := TrimRightParts(s[..|s| - 1]);
      assert s[b..] == s[..|s| - 1][b..] + [s[|s| - 1]] && s[..|s| - 1][..b] == s[..b];
    } else {
      b := |s|;
    }
  }

  lemma TrimIdempotent(s: string)
    ensures TrimSpace(TrimSpace(s)) == TrimSpace(s)
  {
    var a := TrimLeftParts(s);
    var b := TrimRightParts(s[a..]);
    var p := TrimSpace(s);
    assert p == s[a..][..b];
    if p != "" {
      assert p[0] == s[a] && p[|p| - 1] == s[a..][b - 1];
      assert TrimLeft(p) == p && TrimRight(p) == p;
    }
  }

  // strings.Compare.
  function Compare(a: string, b: string): int {
    if a == "" || b == "" then (if a == b then 0 else if a == "" then -1 else 1)
    else if a[0] < b[0] then -1
    else if a[0] > b[0] then 1
    else Compare(a[1..], b[1..])
  }

  lemma {:induction false} CompareOrders(a: string, b: string, c: string)
    ensures Compare(a, b) == -Compare(b, a)
    ensures Compare(a, b) == 0 <==> a == b
    ensures Compare(a, b) <= 0 && Compare(b, c) <= 0 ==> Compare(a, c) <= 0
  {
    if a != "" && b != "" && a[0] == b[0] {
      assert a == [a[0]] + a[1..] && b == [b[0]] + b[1..];
      CompareOrders(a[1..], b[1..], if c != "" then c[1..] else "");
    }
  }
}
