/** What the checker reports: one problem for every place where the value departs from the schema, and where. */
module SchemaProblems {
  import opened Options
  import opened JsonSchema

  datatype Step = Member(key: string) | First

  /** Where a place is, as it is printed. */
  function Render(path: seq<Step>): string {
    if path == [] then ""
    else (match path[0] case Member(key) => "." + key case First => "[0]") + Render(path[1..])
  }

  /** What is wrong with the value itself, not with what is in it. */
  function Fault(s: Schema, v: Json): Option<string> {
    if v.Null? then (if AllowsNull(s) then None else Some(": is null"))
    else
      match s
      case Any => None
      case Prim(kind, _) => if FitsKind(kind, v) then None else Some(": expected " + KindName(kind) + ", got " + Actual(v))
      case ArrayOf(_, _) => if v.Arr? then None else Some(": expected " + "array" + ", got " + Actual(v))
      case ObjectOf(_, _, _, _) => if v.Obj? then None else Some(": expected " + "object" + ", got " + Actual(v))
  }

  /** What is wrong at a place, going down step by step: to the first element of an array, and to the required members of
      an object, where a member that is not there is missing. */
  function FaultAt(s: Schema, v: Json, path: seq<Step>): Option<string>
    decreases |path|
  {
    if path == [] then Fault(s, v)
    else
      match path[0]
      case First =>
        if s.ArrayOf? && v.Arr? && v.items != [] then FaultAt(s.items, v.items[0], path[1..]) else None
      case Member(key) =>
        if !(s.ObjectOf? && v.Obj? && key in s.required) then None
        else if key in v.members then FaultAt(PropertyOf(s, key), v.members[key], path[1..])
        else if |path| == 1 then Some(": missing") else None
  }

  /** The places, one for each problem. */
  ghost predicate Places(s: Schema, v: Json, at: string, problems: seq<string>, paths: seq<seq<Step>>) {
    && |paths| == |problems|
    && forall i | 0 <= i < |paths| ::
         FaultAt(s, v, paths[i]).Some? && problems[i] == at + Render(paths[i]) + FaultAt(s, v, paths[i]).value
  }

  predicate Distinct<T(==)>(xs: seq<T>) {
    forall i, j | 0 <= i < j < |xs| :: xs[i] != xs[j]
  }

  /** Every object schema in it requires each member once. */
  ghost predicate Tidy(s: Schema) {
    match s
    case ArrayOf(items, _) => Tidy(items)
    case ObjectOf(_, properties, required, _) => Distinct(required) && forall n <- properties :: Tidy(properties[n])
    case _ => true
  }

  function Under(step: Step, paths: seq<seq<Step>>): (under: seq<seq<Step>>)
    ensures |under| == |paths| && forall i | 0 <= i < |under| :: under[i] == [step] + paths[i]
  {
    seq(|paths|, i requires 0 <= i < |paths| => [step] + paths[i])
  }

  lemma UnderDistinct(step: Step, paths: seq<seq<Step>>)
    requires Distinct(paths)
    ensures Distinct(Under(step, paths))
  {
    var under := Under(step, paths);
    forall i, j | 0 <= i < j < |under| ensures under[i] != under[j] {
      assert under[i][1..] == paths[i] && under[j][1..] == paths[j];
    }
  }

  lemma InUnder(step: Step, paths: seq<seq<Step>>, path: seq<Step>)
    requires path != [] && path[0] == step && path[1..] in paths
    ensures path in Under(step, paths)
  {
    var i :| 0 <= i < |paths| && paths[i] == path[1..];
    assert path == [step] + path[1..];
    assert Under(step, paths)[i] == path;
  }

  lemma Joined(at: string, step: Step, path: seq<Step>, message: string)
    ensures at + Render([step]) + Render(path) + message == at + Render([step] + path) + message
  {
    assert ([step] + path)[1..] == path && [step][1..] == [];
    assert Render([step] + path) == Render([step]) + Render(path);
    Regrouped(at, Render([step]), Render(path));
  }

  lemma Regrouped(a: string, b: string, c: string)
    ensures a + b + c == a + (b + c)
  {
  }

  /** What is found one step down is found at the step. */
  lemma OneDown(s: Schema, v: Json, t: Schema, u: Json, step: Step, at: string, problems: seq<string>, paths: seq<seq<Step>>)
    requires forall path: seq<Step> | path != [] && path[0] == step :: FaultAt(s, v, path) == FaultAt(t, u, path[1..])
    requires Places(t, u, at + Render([step]), problems, paths)
    ensures Places(s, v, at, problems, Under(step, paths))
  {
    hide FaultAt, Render;
    var under := Under(step, paths);
    forall i | 0 <= i < |under|
      ensures FaultAt(s, v, under[i]).Some? && problems[i] == at + Render(under[i]) + FaultAt(s, v, under[i]).value
    {
      assert under[i][1..] == paths[i];
      Joined(at, step, paths[i], FaultAt(s, v, under[i]).value);
    }
  }

  lemma BothPlaces(s: Schema, v: Json, at: string, a: seq<string>, p: seq<seq<Step>>, b: seq<string>, q: seq<seq<Step>>)
    requires Places(s, v, at, a, p) && Places(s, v, at, b, q)
    ensures Places(s, v, at, a + b, p + q)
  {
    hide FaultAt, Render;
  }

  lemma BothDistinct<T>(p: seq<T>, q: seq<T>)
    requires Distinct(p) && Distinct(q) && forall x <- p :: x !in q
    ensures Distinct(p + q)
  {
    forall i, j | 0 <= i < j < |p + q| ensures (p + q)[i] != (p + q)[j] {
      assert i < |p| <= j ==> p[i] in p && q[j - |p|] in q;
    }
  }

  /** The place lies in one of these members. */
  predicate Into(path: seq<Step>, keys: seq<string>) {
    path != [] && path[0].Member? && path[0].key in keys
  }

  /** Every problem names a place that is at fault and says how, every place at fault is named, and none twice. */
  lemma {:induction false} ProblemsAreFaults(s: Schema, v: Json, at: string) returns (paths: seq<seq<Step>>)
    ensures Places(s, v, at, Problems(s, v, at), paths)
    ensures forall path :: FaultAt(s, v, path).Some? ==> path in paths
    ensures Tidy(s) ==> Distinct(paths)
    decreases v, 1, 0
  {
    if v.Null? || s.Any? || s.Prim? || (s.ArrayOf? && !v.Arr?) || (s.ObjectOf? && !v.Obj?) {
      paths := AtTheTop(s, v, at);
    } else if s.ArrayOf? {
      paths := [];
      if v.items != [] {
        assert [First][1..] == [] && Render([First]) == "[0]";
        var below := ProblemsAreFaults(s.items, v.items[0], at + "[0]");
        paths := Under(First, below);
        OneDown(s, v, s.items, v.items[0], First, at, Problems(s, v, at), below);
        if Tidy(s) { UnderDistinct(First, below); }
        forall path | FaultAt(s, v, path).Some? ensures path in paths { InUnder(First, below, path); }
      }
    } else {
      paths := MembersAreFaults(s, v, s.required, at);
    }
  }

  lemma ExpectedMessage(at: string, name: string, v: Json)
    ensures Expected(name, v, at) == at + (": expected " + name + ", got " + Actual(v))
  {
    hide Actual;
    Regrouped(at, ": expected ", name);
    Regrouped(at, ": expected " + name, ", got ");
    Regrouped(at, ": expected " + name + ", got ", Actual(v));
  }

  lemma TopProblems(s: Schema, v: Json, at: string)
    requires v.Null? || s.Any? || s.Prim? || (s.ArrayOf? && !v.Arr?) || (s.ObjectOf? && !v.Obj?)
    ensures Problems(s, v, at) == if Fault(s, v).Some? then [at + Fault(s, v).value] else []
  {
    hide Expected, Actual, KindName, FitsKind;
    if s.Prim? { ExpectedMessage(at, KindName(s.kind), v); }
    ExpectedMessage(at, "array", v);
    ExpectedMessage(at, "object", v);
  }

  lemma AtTheTop(s: Schema, v: Json, at: string) returns (paths: seq<seq<Step>>)
    requires v.Null? || s.Any? || s.Prim? || (s.ArrayOf? && !v.Arr?) || (s.ObjectOf? && !v.Obj?)
    ensures Places(s, v, at, Problems(s, v, at), paths) && Distinct(paths)
    ensures forall path :: FaultAt(s, v, path).Some? ==> path in paths
  {
    hide Problems, Fault;
    TopProblems(s, v, at);
    paths := if Fault(s, v).Some? then [[]] else [];
    assert at + "" == at && Render([]) == "";
  }

  lemma {:induction false} MembersAreFaults(s: Schema, v: Json, required: seq<string>, at: string)
    returns (paths: seq<seq<Step>>)
    requires s.ObjectOf? && v.Obj? && forall key <- required :: key in s.required
    ensures Places(s, v, at, MemberProblems(s, v, required, at), paths)
    ensures forall path :: FaultAt(s, v, path).Some? && Into(path, required) ==> path in paths
    ensures forall path <- paths :: Into(path, required)
    ensures Tidy(s) && Distinct(required) ==> Distinct(paths)
    decreases v, 0, |required|
  {
    paths := [];
    if required != [] {
      var key, rest := required[0], required[1..];
      assert key in required && required == [key] + rest;
      var here := OneMember(s, v, key, at);
      var there := MembersAreFaults(s, v, rest, at);
      paths := here + there;
      MembersUnfold(s, v, required, at);
      hide FaultAt, MemberProblems, Problems, PropertyOf, Render, Places, Tidy;
      BothPlaces(s, v, at, if key !in v.members then [at + "." + key + ": missing"]
                           else Problems(PropertyOf(s, key), v.members[key], at + "." + key), here,
                 MemberProblems(s, v, rest, at), there);
      forall path: seq<Step> | FaultAt(s, v, path).Some? && Into(path, required) ensures path in paths {
        assert path[0].key == key || path[0].key in rest;
      }
      if Tidy(s) && Distinct(required) {
        assert key !in rest;
        BothDistinct(here, there);
      }
    }
  }

  lemma MembersUnfold(s: Schema, v: Json, required: seq<string>, at: string)
    requires s.ObjectOf? && v.Obj? && required != []
    ensures var key := required[0];
      MemberProblems(s, v, required, at) ==
        (if key !in v.members then [at + "." + key + ": missing"] else Problems(PropertyOf(s, key), v.members[key], at + "." + key))
        + MemberProblems(s, v, required[1..], at)
  {
  }

  lemma {:induction false} OneMember(s: Schema, v: Json, key: string, at: string) returns (paths: seq<seq<Step>>)
    requires s.ObjectOf? && v.Obj? && key in s.required
    ensures Places(s, v, at, if key !in v.members then [at + "." + key + ": missing"]
                             else Problems(PropertyOf(s, key), v.members[key], at + "." + key), paths)
    ensures forall path :: FaultAt(s, v, path).Some? && Into(path, [key]) ==> path in paths
    ensures forall path <- paths :: Into(path, [key])
    ensures Tidy(s) ==> Distinct(paths)
    decreases v, 0, 0
  {
    RenderMember(key, at);
    if key in v.members {
      var below := ProblemsAreFaults(PropertyOf(s, key), v.members[key], at + "." + key);
      paths := Under(Member(key), below);
      OneDown(s, v, PropertyOf(s, key), v.members[key], Member(key), at,
              Problems(PropertyOf(s, key), v.members[key], at + "." + key), below);
      if Tidy(s) { UnderDistinct(Member(key), below); }
      forall path: seq<Step> | FaultAt(s, v, path).Some? && Into(path, [key]) ensures path in paths {
        InUnder(Member(key), below, path);
      }
    } else {
      paths := [[Member(key)]];
      forall path: seq<Step> | FaultAt(s, v, path).Some? && Into(path, [key]) ensures path in paths {
        assert path == [Member(key)];
      }
    }
  }

  lemma RenderMember(key: string, at: string)
    ensures Render([Member(key)]) == "." + key && at + Render([Member(key)]) == at + "." + key
  {
    assert [Member(key)][1..] == [];
    Regrouped(at, ".", key);
  }

  /** A value is of a kind exactly when its type in JavaScript has the kind's name, but for the integers, which are
      numbers: an integer is also a number, and no type is called integer. */
  lemma KindsByName(kind: Kind, v: Json)
    ensures kind.IntegerKind? ==> Actual(v) != KindName(kind)
    ensures !kind.IntegerKind? ==> (FitsKind(kind, v) <==> Actual(v) == KindName(kind))
    ensures FitsKind(IntegerKind, v) <==> FitsKind(NumberKind, v) && IsInteger(v.n)
  {
  }

  // ---- inferred schemas are tidy ----

  /** Every object in the value names each member once. */
  ghost predicate NamesOnce(v: Json) {
    match v
    case Arr(items) => forall x <- items :: NamesOnce(x)
    case Obj(names, members) => Distinct(names) && forall n <- members :: NamesOnce(members[n])
    case _ => true
  }

  /** Tidy, and naming each property once. */
  ghost predicate Neat(s: Schema) {
    match s
    case ArrayOf(items, _) => Neat(items)
    case ObjectOf(names, properties, required, _) =>
      Distinct(names) && Distinct(required) && forall n <- properties :: Neat(properties[n])
    case _ => true
  }

  lemma {:induction false} FilterDistinct(names: seq<string>, keep: set<string>)
    requires Distinct(names)
    ensures Distinct(Filter(names, keep))
  {
    if names != [] {
      var rest := names[1..];
      assert names == [names[0]] + rest;
      assert Distinct(rest) && names[0] !in rest;
      FilterDistinct(rest, keep);
      BothDistinct(if names[0] in keep then [names[0]] else [], Filter(rest, keep));
    }
  }

  lemma {:induction false} MergeNeat(a: Schema, b: Schema)
    requires Neat(a) && Neat(b)
    ensures Neat(MergeShapes(a, b))
    decreases a
  {
    if a.ArrayOf? && b.ArrayOf? {
      MergeNeat(a.items, b.items);
    } else if a.ObjectOf? && b.ObjectOf? {
      var m := MergeShapes(a, b);
      FilterDistinct(b.names, ToSet(b.names) - ToSet(a.names));
      BothDistinct(a.names, Filter(b.names, ToSet(b.names) - ToSet(a.names)));
      FilterDistinct(m.names, a.properties.Keys * b.properties.Keys * ToSet(a.required) * ToSet(b.required));
      forall n <- m.properties ensures Neat(m.properties[n]) {
        MergedProperty(a, b, n);
        if n in a.properties && n in b.properties {
          MergeNeat(a.properties[n], b.properties[n]);
        }
      }
    }
  }

  lemma {:induction false} ItemsNeat(items: seq<Json>)
    requires items != [] && forall x <- items :: Neat(InferSchema(x))
    ensures Neat(InferItems(items))
    decreases |items|
  {
    var rest := items[..|items| - 1];
    assert items[|items| - 1] in items && forall x <- rest :: x in items;
    if rest != [] {
      ItemsNeat(rest);
      MergeNeat(InferItems(rest), InferSchema(items[|items| - 1]));
    }
  }

  lemma {:induction false} InferredIsNeat(v: Json)
    requires NamesOnce(v)
    ensures Neat(InferSchema(v))
    decreases v
  {
    match v
    case Arr(items) =>
      forall x <- items ensures Neat(InferSchema(x)) { InferredIsNeat(x); }
      if items != [] { ItemsNeat(items); }
    case Obj(_, members) =>
      forall n <- members ensures Neat(InferMember(n, members[n])) { InferredIsNeat(members[n]); }
    case _ =>
  }

  lemma {:induction false} NeatIsTidy(s: Schema)
    requires Neat(s)
    ensures Tidy(s)
    decreases s
  {
    match s
    case ArrayOf(items, _) => NeatIsTidy(items);
    case ObjectOf(_, properties, _, _) => forall n <- properties ensures Tidy(properties[n]) { NeatIsTidy(properties[n]); }
    case _ =>
  }

  /** So of any value and a schema inferred from another, every departure is reported once. */
  lemma InferredFaults(example: Json, v: Json, at: string) returns (paths: seq<seq<Step>>)
    requires NamesOnce(example)
    ensures Places(InferSchema(example), v, at, Problems(InferSchema(example), v, at), paths) && Distinct(paths)
    ensures forall path :: FaultAt(InferSchema(example), v, path).Some? <==> path in paths
  {
    InferredIsNeat(example);
    NeatIsTidy(InferSchema(example));
    paths := ProblemsAreFaults(InferSchema(example), v, at);
    hide FaultAt, Problems, Render;
  }
}
