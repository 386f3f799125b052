/** jsonb containment, @> (engine/jsonfuncs.go), on parsed values. */
module Jsonb {
  import opened Options

  datatype Json =
    | Null
    | Bool(b: bool)
    | Number(n: real)
    | Text(s: string)
    | Arr(items: seq<Json>)
    | Obj(fields: map<string, Json>)

  predicate Scalar(j: Json) { !j.Arr? && !j.Obj? }

  predicate Contains(a: Json, b: Json)
    decreases a, 1
  {
    match b
    case Obj(fields) =>
      a.Obj? && forall k <- fields :: k in a.fields && Contains(a.fields[k], fields[k])
    case Arr(items) =>
      a.Arr? && forall i | 0 <= i < |items| :: AnyContains(a, items[i])
    case _ =>
      if a.Arr? then AnyContains(a, b) else a == b
  }

  // Some element of the array contains b.
  predicate AnyContains(a: Json, b: Json)
    requires a.Arr?
    decreases a, 0
  {
    exists i | 0 <= i < |a.items| :: Contains(a.items[i], b)
  }

  lemma {:induction false} Reflexive(a: Json)
    ensures Contains(a, a)
    decreases a
  {
    match a
    case Obj(fields) =>
      forall k | k in fields ensures Contains(fields[k], fields[k]) { Reflexive(fields[k]); }
    case Arr(items) =>
      forall i | 0 <= i < |items| ensures AnyContains(a, items[i]) { Reflexive(items[i]); }
    case _ =>
  }

  lemma {:induction false} Transitive(a: Json, b: Json, c: Json)
    requires Contains(a, b) && Contains(b, c)
    ensures Contains(a, c)
    decreases a
  {
    match c
    case Obj(fields) =>
      forall k | k in fields ensures k in a.fields && Contains(a.fields[k], fields[k]) {
        Transitive(a.fields[k], b.fields[k], fields[k]);
      }
    case Arr(items) =>
      forall i | 0 <= i < |items| ensures AnyContains(a, items[i]) {
        assert AnyContains(b, items[i]);
        var j :| 0 <= j < |b.items| && Contains(b.items[j], items[i]);
        ThroughElement(a, b.items[j], items[i]);
      }
    case _ =>
      if b.Arr? {
        assert AnyContains(b, c);
        var j :| 0 <= j < |b.items| && Contains(b.items[j], c);
        ThroughElement(a, b.items[j], c);
      }
  }

  // What an element of a contains, a contains through that element.
  lemma {:induction false} ThroughElement(a: Json, b: Json, c: Json)
    requires a.Arr? && AnyContains(a, b) && Contains(b, c)
    ensures AnyContains(a, c)
    decreases a, 0
  {
    var i :| 0 <= i < |a.items| && Contains(a.items[i], b);
    Transitive(a.items[i], b, c);
  }

  // -- What is found where --------------------------------------------------------------------

  // The scalar is reached from j by following the keys through objects, and going into any
  // element of the arrays on the way.
  ghost predicate Reaches(j: Json, path: seq<string>, s: Json)
    decreases j
  {
    match j
    case Obj(fields) => path != [] && path[0] in fields && Reaches(fields[path[0]], path[1..], s)
    case Arr(items) => exists i | 0 <= i < |items| :: Reaches(items[i], path, s)
    case _ => path == [] && j == s
  }

  // What stands at a path of indices into arrays inside arrays.
  function At(j: Json, path: seq<nat>): Option<Json>
    decreases |path|
  {
    if path == [] then Some(j)
    else if j.Arr? && path[0] < |j.items| then At(j.items[path[0]], path[1..])
    else None
  }

  ghost predicate HasLeaf(j: Json, s: Json) { exists path :: At(j, path) == Some(s) }

  // A scalar is contained exactly where some path of indices leads to it.
  lemma {:induction false} ScalarIsLeaf(a: Json, s: Json)
    requires Scalar(s)
    ensures Contains(a, s) <==> HasLeaf(a, s)
    decreases a
  {
    if Contains(a, s) { var path := PathTo(a, s); }
    if path :| At(a, path) == Some(s) { FoundAlong(a, path, s); }
  }

  lemma {:induction false} PathTo(a: Json, s: Json) returns (path: seq<nat>)
    requires Scalar(s) && Contains(a, s)
    ensures At(a, path) == Some(s)
    decreases a
  {
    path := [];
    if a.Arr? {
      assert AnyContains(a, s);
      var i :| 0 <= i < |a.items| && Contains(a.items[i], s);
      var rest := PathTo(a.items[i], s);
      path := [i] + rest;
      assert path[1..] == rest;
    }
  }

  lemma {:induction false} FoundAlong(a: Json, path: seq<nat>, s: Json)
    requires Scalar(s) && At(a, path) == Some(s)
    ensures Contains(a, s)
    decreases |path|
  {
    if path != [] {
      FoundAlong(a.items[path[0]], path[1..], s);
      assert AnyContains(a, s);
    }
  }

  // Being contained is being the value itself, or an element of it, exactly when the scalar is such an
  // element or no array among the elements leads to it.
  lemma HeldScalarExactly(a: Json, s: Json)
    requires Scalar(s)
    ensures (Contains(a, s) <==> a == s || (a.Arr? && s in a.items)) <==>
            (a.Arr? && s !in a.items ==> forall j <- a.items | j.Arr? :: !HasLeaf(j, s))
  {
    forall j ensures Contains(j, s) <==> HasLeaf(j, s) { ScalarIsLeaf(j, s); }
    if a.Arr? {
      forall j <- a.items ensures Contains(j, s) ==> j == s || j.Arr? {}
      assert Contains(a, s) <==> exists i | 0 <= i < |a.items| :: Contains(a.items[i], s);
      if s in a.items { ElementContained(a, s); }
    }
  }

  lemma ElementContained(a: Json, s: Json)
    requires Scalar(s) && a.Arr? && s in a.items
    ensures Contains(a, s)
  {
    var i :| 0 <= i < |a.items| && a.items[i] == s;
    assert Contains(a.items[i], s);
  }

  // Containing a value means having its every scalar at the same keys.
  lemma {:induction false} PathsAreKept(a: Json, b: Json, path: seq<string>, s: Json)
    requires Contains(a, b) && Reaches(b, path, s)
    ensures Reaches(a, path, s)
    decreases a
  {
    match b
    case Obj(fields) => PathsAreKept(a.fields[path[0]], fields[path[0]], path[1..], s);
    case Arr(items) =>
      var i :| 0 <= i < |items| && Reaches(items[i], path, s);
      PathInElement(a, items[i], path, s);
    case _ =>
      if a.Arr? { PathInElement(a, b, path, s); }
  }

  lemma {:induction false} PathInElement(a: Json, b: Json, path: seq<string>, s: Json)
    requires a.Arr? && AnyContains(a, b) && Reaches(b, path, s)
    ensures Reaches(a, path, s)
    decreases a, 0
  {
    var i :| 0 <= i < |a.items| && Contains(a.items[i], b);
    PathsAreKept(a.items[i], b, path, s);
  }

  // A value of one branch of objects, down to one scalar.
  ghost function Branch(path: seq<string>, s: Json): Json {
    if path == [] then s else Obj(map[path[0] := Branch(path[1..], s)])
  }

  // The keys are followed through objects alone, and arrays come only at the end.
  ghost predicate Straight(a: Json, path: seq<string>, s: Json)
    decreases |path|
  {
    if path == [] then HasLeaf(a, s)
    else a.Obj? && path[0] in a.fields && Straight(a.fields[path[0]], path[1..], s)
  }

  // Such a value is contained exactly where its keys lead, array elements counting at the end only.
  lemma {:induction false} BranchIsContained(a: Json, path: seq<string>, s: Json)
    requires Scalar(s)
    ensures Contains(a, Branch(path, s)) <==> Straight(a, path, s)
    decreases |path|
  {
    if path == [] {
      ScalarIsLeaf(a, s);
    } else if a.Obj? && path[0] in a.fields {
      BranchIsContained(a.fields[path[0]], path[1..], s);
    }
  }

  // The element counts and order of arrays do not matter.
  lemma ArraysAsSets(xs: seq<Json>, ys: seq<Json>)
    requires forall y <- ys :: y in xs
    ensures Contains(Arr(xs), Arr(ys))
  {
    forall i | 0 <= i < |ys| ensures AnyContains(Arr(xs), ys[i]) {
      assert ys[i] in xs;
      var j :| 0 <= j < |xs| && xs[j] == ys[i];
      Reflexive(ys[i]);
    }
  }

  // Arrays are gone into at any depth, also where an array stands inside another.
  lemma NestedScalarIsContained(s: Json)
    requires Scalar(s)
    ensures Contains(Arr([Arr([s])]), s)
  {
    var inner := Arr([s]);
    assert Contains(inner.items[0], s);
    assert AnyContains(inner, s);
    assert Contains(Arr([inner]).items[0], s);
  }

  // The fields of an object that are named.
  function Part(fields: map<string, Json>, names: set<string>): Json {
    Obj(map k | k in fields && k in names :: fields[k])
  }

  // An array contains another of parts of its objects, each with fewer fields: [{"a":1,"b":2}] holds
  // [{"a":1}].
  lemma PartsInArray(objs: seq<map<string, Json>>, names: set<string>)
    ensures Contains(Arr(seq(|objs|, i requires 0 <= i < |objs| => Obj(objs[i]))),
                     Arr(seq(|objs|, i requires 0 <= i < |objs| => Part(objs[i], names))))
  {
    var whole := seq(|objs|, i requires 0 <= i < |objs| => Obj(objs[i]));
    var parts := seq(|objs|, i requires 0 <= i < |objs| => Part(objs[i], names));
    forall i | 0 <= i < |parts| ensures AnyContains(Arr(whole), parts[i]) {
      PartIsContained(objs[i], names);
      assert Contains(whole[i], parts[i]);
    }
  }

  // An object contains a part of itself, which contains it only when no field is left out.
  lemma PartIsContained(fields: map<string, Json>, names: set<string>)
    ensures Contains(Obj(fields), Part(fields, names))
    ensures Contains(Part(fields, names), Obj(fields)) <==> fields.Keys <= names
  {
    forall k | k in fields ensures Contains(fields[k], fields[k]) { Reflexive(fields[k]); }
    if Contains(Part(fields, names), Obj(fields)) {
      forall k | k in fields ensures k in names { assert k in Part(fields, names).fields; }
    }
  }
}
