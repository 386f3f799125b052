/** hstore text and the map it stands for (engine/hstore.go). */
module Hstore {
  import opened Options
  import opened Text

  // A value is a string or NULL.
  type Value = Option<string>

  // -- Reading -----------------------------------------------------------------------------------

  predicate Gap(c: char) { c == ' ' || c == '\t' || c == '\n' }

  function SkipWS(s: string, i: nat): (j: nat)
    ensures i <= j && (i <= |s| ==> j <= |s|)
    decreases |s| - i
  {
    if i < |s| && Gap(s[i]) then SkipWS(s, i + 1) else i
  }

  // The text up to the closing quote, and the position after it.
  function QuotedFrom(s: string, i: nat): (r: (string, nat))
    ensures i <= r.1 && (i <= |s| ==> r.1 <= |s|)
    decreases |s| - i
  {
    if i >= |s| then ("", i)
    else if s[i] == '\\' && i + 1 < |s| then
      var (t, j) := QuotedFrom(s, i + 2); ([s[i + 1]] + t, j)
    else if s[i] == '"' then ("", i + 1)
    else
      var (t, j) := QuotedFrom(s, i + 1); ([s[i]] + t, j)
  }

  function BareEnd(s: string, i: nat, stops: set<char>): (j: nat)
    requires i <= |s|
    ensures i <= j <= |s|
    decreases |s| - i
  {
    if i < |s| && s[i] !in stops then BareEnd(s, i + 1, stops) else i
  }

  const KEY_STOPS := {' ', '\t', '=', ','}
  const VALUE_STOPS := {' ', '\t', ','}

  // A key, and the position after it; nothing where no key stands.
  function Token(s: string, i: nat): (r: Option<(string, nat)>)
    ensures r.Some? ==> i < r.value.1 <= |s|
  {
    if i >= |s| then None
    else if s[i] == '"' then Some(QuotedFrom(s, i + 1))
    else
      var j := BareEnd(s, i, KEY_STOPS);
      if j == i then None else Some((s[i..j], j))
  }

  function ReadValue(s: string, i: nat): (r: (Value, nat))
    requires i <= |s|
    ensures i <= r.1 <= |s|
  {
    if i < |s| && s[i] == '"' then
      var (t, j) := QuotedFrom(s, i + 1); (Some(t), j)
    else
      var j := BareEnd(s, i, VALUE_STOPS);
      (if Lower(s[i..j]) == "null" then None else Some(s[i..j]), j)
  }

  datatype Entry = Entry(key: string, value: Value, next: nat)

  // One round of reading: a key, an arrow and a value, and perhaps a comma.
  function ReadEntry(s: string, i: nat): (r: Option<Entry>)
    ensures r.Some? ==> i < r.value.next <= |s|
  {
    var a := SkipWS(s, i);
    var tok := Token(s, a);
    if a >= |s| || tok.None? then None
    else
      var b := SkipWS(s, tok.value.1);
      if b + 1 >= |s| || s[b] != '=' || s[b + 1] != '>' then None
      else
        var (v, c) := ReadValue(s, SkipWS(s, b + 2));
        var d := SkipWS(s, c);
        Some(Entry(tok.value.0, v, if d < |s| && s[d] == ',' then d + 1 else d))
  }

  // Every round gets past a key, so reading ends on any text.
  function ReadFrom(s: string, i: nat, m: map<string, Value>): map<string, Value>
    decreases |s| - i
  {
    if i >= |s| then m
    else
      var e := ReadEntry(s, i);
      if e.None? then m else ReadFrom(s, e.value.next, m[e.value.key := e.value.value])
  }

  function In(s: string): map<string, Value> { ReadFrom(s, 0, map[]) }

  // -- Writing -----------------------------------------------------------------------------------

  // strings.ReplaceAll of one character.
  function ReplaceAll(s: string, c: char, to: string): string {
    if s == "" then "" else (if s[0] == c then to else [s[0]]) + ReplaceAll(s[1..], c, to)
  }

  function Quote(s: string): string {
    "\"" + ReplaceAll(ReplaceAll(s, '\\', "\\\\"), '"', "\\\"") + "\""
  }

  function QuoteValue(v: Value): string { if v.None? then "NULL" else Quote(v.value) }

  function Pair(k: string, v: Value): string { Quote(k) + "=>" + QuoteValue(v) }

  function Pairs(m: map<string, Value>, keys: seq<string>): (ps: seq<string>)
    requires forall k <- keys :: k in m
    ensures |ps| == |keys|
  {
    if keys == [] then [] else [Pair(keys[0], m[keys[0]])] + Pairs(m, keys[1..])
  }

  function Out(m: map<string, Value>, keys: seq<string>): string
    requires forall k <- keys :: k in m
  {
    Join(Pairs(m, keys), ", ")
  }

  // -- Quoting round trip ---------------------------------------------------------------------------

  // What the two replacements make together.
  function GuardedChar(c: char): string { if c == '\\' || c == '"' then ['\\', c] else [c] }

  function Guarded(s: string): string { if s == "" then "" else GuardedChar(s[0]) + Guarded(s[1..]) }

  lemma {:induction false} ReplaceConcat(a: string, b: string, c: char, to: string)
    ensures ReplaceAll(a + b, c, to) == ReplaceAll(a, c, to) + ReplaceAll(b, c, to)
  {
    if a == "" {
      assert a + b == b;
    } else {
      ReplaceConcat(a[1..], b, c, to);
      assert (a + b)[1..] == a[1..] + b && (a + b)[0] == a[0];
      var head := if a[0] == c then to else [a[0]];
      assert ReplaceAll(a + b, c, to) == head + ReplaceAll(a[1..] + b, c, to);
      var a', b' := ReplaceAll(a[1..], c, to), ReplaceAll(b, c, to);
      assert head + (a' + b') == (head + a') + b';
    }
  }

  lemma {:induction false} TwoReplacements(s: string)
    ensures ReplaceAll(ReplaceAll(s, '\\', "\\\\"), '"', "\\\"") == Guarded(s)
  {
    if s != "" {
      var head := if s[0] == '\\' then "\\\\" else [s[0]];
      TwoReplacements(s[1..]);
      ReplaceConcat(head, ReplaceAll(s[1..], '\\', "\\\\"), '"', "\\\"");
      if s[0] == '\\' {
        assert head == ['\\'] + ['\\'];
        assert head[1..] == ['\\'] && ['\\'][1..] == "";
        assert ReplaceAll(head, '"', "\\\"") == ['\\', '\\'];
      } else {
        assert head[1..] == "";
      }
    }
  }

  lemma AtStep(s: string, i: nat, p: string, q: string)
    requires At(s, i, p + q)
    ensures At(s, i, p) && At(s, i + |p|, q)
  {
    var t := s[i..i + |p + q|];
    assert t[..|p|] == p && t[|p|..] == q;
    assert s[i..i + |p|] == t[..|p|] && s[i + |p|..i + |p| + |q|] == t[|p|..];
  }

  lemma AtChar(s: string, i: nat, p: string, k: nat)
    requires At(s, i, p) && k < |p|
    ensures s[i + k] == p[k]
  {
    assert s[i..i + |p|][k] == p[k];
  }

  lemma GuardedCharReads(s: string, i: nat, c: char)
    requires At(s, i, GuardedChar(c)) && i + |GuardedChar(c)| < |s|
    ensures var (t, j) := QuotedFrom(s, i + |GuardedChar(c)|);
            QuotedFrom(s, i) == ([c] + t, j)
  {
    AtChar(s, i, GuardedChar(c), 0);
    if |GuardedChar(c)| == 2 { AtChar(s, i, GuardedChar(c), 1); }
  }

  lemma {:induction false} GuardedReads(s: string, i: nat, t: string)
    requires At(s, i, Guarded(t) + "\"")
    ensures QuotedFrom(s, i) == (t, i + |Guarded(t)| + 1)
    decreases |t|
  {
    if t == "" {
      AtChar(s, i, Guarded(t) + "\"", 0);
    } else {
      var head, rest := GuardedChar(t[0]), Guarded(t[1..]);
      GuardedParts(s, i, head, rest);
      GuardedReads(s, i + |head|, t[1..]);
      GuardedCharReads(s, i, t[0]);
      assert t == [t[0]] + t[1..];
    }
  }

  lemma GuardedParts(s: string, i: nat, head: string, rest: string)
    requires At(s, i, head + rest + "\"")
    ensures At(s, i, head) && At(s, i + |head|, rest + "\"") && i + |head| < |s|
  {
    assert head + rest + "\"" == head + (rest + "\"");
    AtStep(s, i, head, rest + "\"");
  }

  lemma QuotedAt(s: string, i: nat, quoted: string, inside: string)
    requires At(s, i, quoted) && quoted == "\"" + inside
    ensures i < |s| && s[i] == '"' && At(s, i + 1, inside)
  {
    AtStep(s, i, "\"", inside);
    AtChar(s, i, "\"", 0);
  }

  lemma QuoteIsGuarded(t: string) returns (inside: string)
    ensures inside == Guarded(t) + "\"" && Quote(t) == "\"" + inside
  {
    TwoReplacements(t);
    inside := Guarded(t) + "\"";
  }

  // A quoted string reads as itself, wherever it stands.
  lemma QuoteReads(s: string, i: nat, t: string)
    requires At(s, i, Quote(t))
    ensures i < |s| && s[i] == '"' && QuotedFrom(s, i + 1) == (t, i + |Quote(t)|)
  {
    var inside := QuoteIsGuarded(t);
    QuotedAt(s, i, Quote(t), inside);
    GuardedReads(s, i + 1, t);
  }

  // -- Entries ---------------------------------------------------------------------------------------

  lemma ValueReads(s: string, i: nat, v: Value)
    requires At(s, i, QuoteValue(v))
    requires i + |QuoteValue(v)| < |s| ==> s[i + |QuoteValue(v)|] == ','
    ensures i < |s| && ReadValue(s, i) == (v, i + |QuoteValue(v)|) && !Gap(s[i])
  {
    if v.Some? {
      QuoteReads(s, i, v.value);
    } else {
      NullReads(s, i);
    }
  }

  lemma NullReads(s: string, i: nat)
    requires At(s, i, "NULL") && (i + 4 < |s| ==> s[i + 4] == ',')
    ensures ReadValue(s, i) == (None, i + 4) && s[i] == 'N'
  {
    assert s[i] == 'N' && s[i + 1] == 'U' && s[i + 2] == 'L' && s[i + 3] == 'L' by {
      AtChar(s, i, "NULL", 0);
      AtChar(s, i, "NULL", 1);
      AtChar(s, i, "NULL", 2);
      AtChar(s, i, "NULL", 3);
    }
    assert BareEnd(s, i + 4, VALUE_STOPS) == i + 4;
    assert BareEnd(s, i + 3, VALUE_STOPS) == i + 4;
    assert BareEnd(s, i + 2, VALUE_STOPS) == i + 4;
    assert BareEnd(s, i + 1, VALUE_STOPS) == i + 4;
    assert BareEnd(s, i, VALUE_STOPS) == i + 4;
    assert Lower("NULL") == "null";
  }

  // A key and a value as written, with the arrow between them.
  lemma PairParts(s: string, j: nat, quoted: string, written: string) returns (arrow: nat)
    requires At(s, j, quoted + "=>" + written)
    ensures arrow == j + |quoted| && arrow + 2 <= |s| && s[arrow] == '=' && s[arrow + 1] == '>'
    ensures At(s, j, quoted) && At(s, arrow + 2, written)
  {
    assert quoted + "=>" + written == quoted + ("=>" + written);
    AtStep(s, j, quoted, "=>" + written);
    arrow := j + |quoted|;
    AtStep(s, arrow, "=>", written);
    AtChar(s, arrow, "=>", 0);
    AtChar(s, arrow, "=>", 1);
  }

  // An arrow and a value after a key.
  lemma EntryReads(s: string, i: nat, j: nat, k: string, arrow: nat, v: Value, end: nat)
    requires i == j || (i + 1 == j < |s| && s[i] == ' ')
    requires j < |s| && s[j] == '"' && Token(s, j) == Some((k, arrow))
    requires arrow + 2 < |s| && s[arrow] == '=' && s[arrow + 1] == '>' && !Gap(s[arrow + 2])
    requires ReadValue(s, arrow + 2) == (v, end) && (end < |s| ==> s[end] == ',')
    ensures ReadEntry(s, i) == Some(Entry(k, v, if end < |s| then end + 1 else end))
  {
    assert SkipWS(s, i) == j;
    assert SkipWS(s, arrow) == arrow && SkipWS(s, arrow + 2) == arrow + 2 && SkipWS(s, end) == end;
  }

  lemma KeyReads(s: string, j: nat, k: string)
    requires At(s, j, Quote(k))
    ensures j < |s| && s[j] == '"' && Token(s, j) == Some((k, j + |Quote(k)|))
  {
    QuoteReads(s, j, k);
  }

  // A written pair, after at most a space, is read as one entry, up to the comma after it.
  lemma PairReads(s: string, i: nat, j: nat, k: string, v: Value, end: nat)
    requires i == j || (i + 1 == j < |s| && s[i] == ' ')
    requires At(s, j, Pair(k, v)) && end == j + |Pair(k, v)|
    requires end < |s| ==> s[end] == ','
    ensures ReadEntry(s, i) == Some(Entry(k, v, if end < |s| then end + 1 else end))
  {
    var arrow := PairParts(s, j, Quote(k), QuoteValue(v));
    ValueReads(s, arrow + 2, v);
    KeyReads(s, j, k);
    EntryReads(s, i, j, k, arrow, v, end);
  }

  // -- The round trip ----------------------------------------------------------------------------------

  ghost function Updated(acc: map<string, Value>, m: map<string, Value>, keys: seq<string>): map<string, Value>
    requires forall k <- keys :: k in m
    decreases |keys|
  {
    if keys == [] then acc else Updated(acc[keys[0] := m[keys[0]]], m, keys[1..])
  }

  lemma {:induction false} UpdatedHolds(acc: map<string, Value>, m: map<string, Value>, keys: seq<string>)
    requires forall k <- keys :: k in m
    ensures Updated(acc, m, keys).Keys == acc.Keys + set k <- keys
    ensures (forall k <- acc :: k in m && acc[k] == m[k]) ==>
        forall k <- Updated(acc, m, keys) :: k in m && Updated(acc, m, keys)[k] == m[k]
    decreases |keys|
  {
    if keys != [] {
      UpdatedHolds(acc[keys[0] := m[keys[0]]], m, keys[1..]);
      assert keys == [keys[0]] + keys[1..];
    }
  }

  lemma {:induction false} PairsRead(s: string, i: nat, j: nat, m: map<string, Value>, keys: seq<string>,
                                     acc: map<string, Value>)
    requires keys != [] && forall k <- keys :: k in m
    requires i == j || (i + 1 == j < |s| && s[i] == ' ')
    requires j <= |s| && s[j..] == Out(m, keys)
    ensures ReadFrom(s, i, acc) == Updated(acc, m, keys)
    decreases |keys|
  {
    var k, v := keys[0], m[keys[0]];
    OutParts(m, keys);
    var end := FirstPair(s, j, Pair(k, v), keys, Out(m, keys[1..]));
    PairReads(s, i, j, k, v, end);
    ReadOn(s, i, acc, Entry(k, v, if end < |s| then end + 1 else end));
    if |keys| > 1 {
      PairsRead(s, end + 1, end + 2, m, keys[1..], acc[k := v]);
    } else {
      assert keys[1..] == [];
    }
  }

  lemma ReadOn(s: string, i: nat, acc: map<string, Value>, e: Entry)
    requires ReadEntry(s, i) == Some(e)
    ensures ReadFrom(s, i, acc) == ReadFrom(s, e.next, acc[e.key := e.value])
  {
  }

  lemma OutParts(m: map<string, Value>, keys: seq<string>)
    requires keys != [] && forall k <- keys :: k in m
    ensures forall k <- keys[1..] :: k in m
    ensures Out(m, keys) == Pair(keys[0], m[keys[0]]) + if |keys| == 1 then "" else ", " + Out(m, keys[1..])
    ensures |keys| > 1 ==> Out(m, keys[1..]) != ""
  {
  }

  lemma FirstPair(s: string, j: nat, p: string, keys: seq<string>, rest: string) returns (end: nat)
    requires keys != [] && p != ""
    requires j <= |s| && s[j..] == p + if |keys| == 1 then "" else ", " + rest
    ensures end == j + |p| && At(s, j, p)
    ensures |keys| == 1 ==> end == |s|
    ensures |keys| > 1 ==> end + 2 <= |s| && s[end] == ',' && s[end + 1] == ' ' && s[end + 2..] == rest
  {
    end := j + |p|;
    assert s[j..end] == s[j..][..|p|] && s[end..] == s[j..][|p|..];
    if |keys| > 1 {
      assert s[end..] == ", " + rest;
      assert s[end + 2..] == s[end..][2..];
      assert s[end] == s[end..][0] && s[end + 1] == s[end..][1];
    }
  }

  // Written with its keys in any order, a map reads back as itself.
  lemma RoundTrip(m: map<string, Value>, keys: seq<string>)
    requires forall k :: k in keys <==> k in m
    ensures In(Out(m, keys)) == m
  {
    UpdatedHolds(map[], m, keys);
    if keys == [] {
      assert Out(m, keys) == "";
    } else {
      var s := Out(m, keys);
      assert s[0..] == s;
      PairsRead(s, 0, 0, m, keys, map[]);
    }
  }

  // -- The program's loops ------------------------------------------------------------------------------

  method QuotedLoop(s: string, start: nat) returns (text: string, next: nat)
    requires start < |s|
    ensures (text, next) == QuotedFrom(s, start + 1)
  {
    var i := start + 1;
    text := "";
    assert forall t: string :: "" + t == t;
    while i < |s|
      invariant i <= |s| && QuotedFrom(s, start + 1) == After(text, QuotedFrom(s, i))
    {
      var c := s[i];
      ghost var step := if c == '\\' && i + 1 < |s| then 2 else 1;
      OneMore(text, s[i + step - 1], QuotedFrom(s, i + step));
      if c == '\\' && i + 1 < |s| {
        text := text + [s[i + 1]];
        i := i + 2;
        continue;
      }
      if c == '"' {
        assert text + "" == text;
        return text, i + 1;
      }
      text := text + [c];
      i := i + 1;
    }
    assert text + "" == text;
    next := i;
  }

  lemma OneMore(text: string, c: char, r: (string, nat))
    ensures After(text, ([c] + r.0, r.1)) == After(text + [c], r)
  {
    assert text + ([c] + r.0) == (text + [c]) + r.0;
  }

  ghost function After(text: string, r: (string, nat)): (string, nat) { (text + r.0, r.1) }

  method BareLoop(s: string, start: nat, stops: set<char>) returns (i: nat)
    requires start <= |s|
    ensures i == BareEnd(s, start, stops)
  {
    i := start;
    while i < |s| && s[i] !in stops
      invariant start <= i <= |s| && BareEnd(s, start, stops) == BareEnd(s, i, stops)
    {
      i := i + 1;
    }
  }

  method SkipLoop(s: string, start: nat) returns (i: nat)
    ensures i == SkipWS(s, start)
  {
    i := start;
    while i < |s| && Gap(s[i])
      invariant start <= i && SkipWS(s, start) == SkipWS(s, i)
    {
      i := i + 1;
    }
  }

  method TokenAt(s: string, i: nat) returns (r: Option<(string, nat)>)
    ensures r == Token(s, i)
  {
    if i >= |s| { return None; }
    if s[i] == '"' {
      var text, next := QuotedLoop(s, i);
      return Some((text, next));
    }
    var j := BareLoop(s, i, KEY_STOPS);
    r := if j == i then None else Some((s[i..j], j));
  }

  method ValueAt(s: string, i: nat) returns (v: Value, next: nat)
    requires i <= |s|
    ensures (v, next) == ReadValue(s, i)
  {
    if i < |s| && s[i] == '"' {
      var text, j := QuotedLoop(s, i);
      return Some(text), j;
    }
    next := BareLoop(s, i, VALUE_STOPS);
    v := if Lower(s[i..next]) == "null" then None else Some(s[i..next]);
  }

  method EntryAt(s: string, start: nat) returns (e: Option<Entry>)
    ensures e == ReadEntry(s, start)
  {
    var i := SkipLoop(s, start);
    if i >= |s| { return None; }
    var key := TokenAt(s, i);
    if key.None? { return None; }
    i := SkipLoop(s, key.value.1);
    if i + 1 >= |s| || s[i] != '=' || s[i + 1] != '>' { return None; }
    i := SkipLoop(s, i + 2);
    var val;
    val, i := ValueAt(s, i);
    i := SkipLoop(s, i);
    if i < |s| && s[i] == ',' { i := i + 1; }
    e := Some(Entry(key.value.0, val, i));
  }

  method HstoreIn(s: string) returns (m: map<string, Value>)
    ensures m == In(s)
  {
    m := map[];
    var i := 0;
    while i < |s|
      invariant i <= |s| && In(s) == ReadFrom(s, i, m)
      decreases |s| - i
    {
      var e := EntryAt(s, i);
      if e.None? { break; }
      m := m[e.value.key := e.value.value];
      i := e.value.next;
    }
  }

  // -- Sorted keys -------------------------------------------------------------------------------------

  predicate Ascending(keys: seq<string>) {
    forall i, j | 0 <= i < j < |keys| :: Compare(keys[i], keys[j]) < 0
  }

  predicate Least(k: string, rest: set<string>) { k in rest && forall o <- rest | o != k :: Compare(k, o) < 0 }

  // The keys are sorted, which makes the text stable: it is the only one for the map.
  method HstoreOut(m: map<string, Value>) returns (text: string, ghost keys: seq<string>)
    ensures Ascending(keys) && forall k :: k in keys <==> k in m
    ensures text == Out(m, keys) && In(text) == m
  {
    var rest := m.Keys;
    var sorted := [];
    while rest != {}
      invariant rest <= m.Keys && forall k :: k in sorted <==> k in m && k !in rest
      invariant Ascending(sorted) && forall k <- sorted, o <- rest :: Compare(k, o) < 0
    {
      var k := LeastOf(rest);
      rest := rest - {k};
      sorted := sorted + [k];
    }
    RoundTrip(m, sorted);
    text, keys := Out(m, sorted), sorted;
  }

  method LeastOf(rest: set<string>) returns (k: string)
    requires rest != {}
    ensures Least(k, rest)
  {
    k :| k in rest;
    var others := rest - {k};
    while others != {}
      invariant others <= rest && k in rest && k !in others
      invariant forall o <- rest | o != k && o !in others :: Compare(k, o) < 0
    {
      var o :| o in others;
      others := others - {o};
      CompareOrders(k, o, o);
      CompareOrders(o, k, k);
      if Compare(o, k) < 0 {
        forall x <- rest | x != o && x !in others ensures Compare(o, x) < 0 {
          CompareOrders(o, k, x);
          CompareOrders(o, x, x);
        }
        k := o;
      }
    }
  }

  // Two sorted texts of one map are the same.
  lemma {:induction false} SortedIsUnique(a: seq<string>, b: seq<string>)
    requires Ascending(a) && Ascending(b) && forall k :: k in a <==> k in b
    ensures a == b
    decreases |a|
  {
    assert b == [] || b[0] in b;
    if a != [] {
      assert a[0] in a && b[0] in a;
      var i :| 0 <= i < |b| && b[i] == a[0];
      var j :| 0 <= j < |a| && a[j] == b[0];
      CompareOrders(a[0], b[0], b[0]);
      assert a[0] == b[0];
      forall k ensures k in a[1..] <==> k in b[1..] { SameRest(a, b, k); SameRest(b, a, k); }
      SortedIsUnique(a[1..], b[1..]);
    }
  }

  lemma SameRest(a: seq<string>, b: seq<string>, k: string)
    requires a != [] && b != [] && a[0] == b[0] && Ascending(a) && forall x :: x in a <==> x in b
    ensures k in a[1..] ==> k in b[1..]
  {
    if k in a[1..] {
      var i :| 0 <= i < |a| - 1 && a[1..][i] == k;
      CompareOrders(a[0], a[i + 1], k);
      assert k in a && k in b && k != b[0];
      assert b == [b[0]] + b[1..];
    }
  }

  // The written form is canonical: texts are read as the same map exactly when their maps, written
  // with sorted keys, give the same text.
  lemma WritingNormalises(s: string, t: string, ks: seq<string>, kt: seq<string>)
    requires Ascending(ks) && forall k :: k in ks <==> k in In(s)
    requires Ascending(kt) && forall k :: k in kt <==> k in In(t)
    ensures In(s) == In(t) <==> Out(In(s), ks) == Out(In(t), kt)
  {
    RoundTrip(In(s), ks);
    RoundTrip(In(t), kt);
    if In(s) == In(t) { SortedIsUnique(ks, kt); }
  }

  // -- Text without quotes ----------------------------------------------------------------------------

  lemma {:induction false} BareRun(s: string, i: nat, j: nat, stops: set<char>)
    requires i <= j <= |s| && (forall k | i <= k < j :: s[k] !in stops) && (j < |s| ==> s[j] in stops)
    ensures BareEnd(s, i, stops) == j
    decreases j - i
  {
    if i < j { BareRun(s, i + 1, j, stops); }
  }

  // A value of characters that need no quotes.
  predicate BareValue(v: string) { v != "" && v[0] != '"' && forall c <- v :: !Gap(c) && c != ',' }

  predicate BareKey(k: string) { BareValue(k) && '=' !in k }

  lemma BareParts(k: string, v: string)
    requires BareKey(k) && BareValue(v)
    ensures var s := k + "=>" + v;
            && Token(s, 0) == Some((k, |k|))
            && ReadValue(s, |k| + 2) == (if Lower(v) == "null" then None else Some(v), |s|)
  {
    var s := k + "=>" + v;
    assert s[0..|k|] == k && s[|k|] == '=' && s[|k| + 2..|s|] == v && s[0] == k[0] && s[|k| + 2] == v[0];
    forall i | 0 <= i < |k| ensures s[i] !in KEY_STOPS { assert s[i] == k[i] && k[i] in k; }
    forall i | |k| + 2 <= i < |s| ensures s[i] !in VALUE_STOPS { assert s[i] == v[i - |k| - 2] && v[i - |k| - 2] in v; }
    BareRun(s, 0, |k|, KEY_STOPS);
    BareRun(s, |k| + 2, |s|, VALUE_STOPS);
  }

  // A pair written bare reads as its key and its value; only the word null, in any case, is NULL.
  lemma BarePairReads(k: string, v: string)
    requires BareKey(k) && BareValue(v)
    ensures In(k + "=>" + v) == map[k := if Lower(v) == "null" then None else Some(v)]
  {
    var s := k + "=>" + v;
    BareParts(k, v);
    assert |s| == |k| + 2 + |v| && s[|k|] == '=' && s[|k| + 1] == '>';
    assert s[0] == k[0] && k[0] in k && s[|k| + 2] == v[0] && v[0] in v;
    assert SkipWS(s, 0) == 0 && SkipWS(s, |k|) == |k| && SkipWS(s, |k| + 2) == |k| + 2 && SkipWS(s, |s|) == |s|;
    var value := if Lower(v) == "null" then None else Some(v);
    assert ReadEntry(s, 0) == Some(Entry(k, value, |s|));
    assert ReadFrom(s, 0, map[]) == ReadFrom(s, |s|, map[][k := value]);
  }

  // A bare key ends at white space, an equals sign or a comma, a bare value at white space or a comma.
  lemma BareEnds(k: string, c: char, rest: string)
    requires BareKey(k) && (c == ' ' || c == '\t' || c == '=' || c == ',')
    ensures Token(k + [c] + rest, 0) == Some((k, |k|))
    ensures c != '=' ==>
              ReadValue(k + [c] + rest, 0) == (if Lower(k) == "null" then None else Some(k), |k|)
  {
    var s := k + [c] + rest;
    assert s[0..|k|] == k && s[|k|] == c && s[0] == k[0];
    forall i | 0 <= i < |k| ensures s[i] !in KEY_STOPS && s[i] !in VALUE_STOPS { assert s[i] == k[i] && k[i] in k; }
    BareRun(s, 0, |k|, KEY_STOPS);
    if c != '=' { BareRun(s, 0, |k|, VALUE_STOPS); }
  }

  // Without a whole arrow behind the key there is no pair, and reading ends.
  lemma ArrowIsNeeded(k: string, rest: string)
    requires BareKey(k) && (rest == "" || rest[0] != '>')
    ensures In(k + "=" + rest) == map[]
  {
    var s := k + ['='] + rest;
    BareEnds(k, '=', rest);
    assert k + "=" + rest == s && s[0] == k[0] && k[0] in k && s[|k|] == '=';
    assert SkipWS(s, 0) == 0 && SkipWS(s, |k|) == |k|;
    if rest != "" { assert s[|k| + 1] == rest[0]; }
    assert ReadEntry(s, 0).None?;
  }
}
