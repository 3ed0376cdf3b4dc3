/** The published answer shapes (src/openapi-schema.ts): a schema inferred from an example, and the checker. */
module JsonSchema {
  /** A JSON value. An object keeps its member names in order beside the members themselves. */
  datatype Json =
    | Null
    | Bool(b: bool)
    | Num(n: real)
    | Str(s: string)
    | Arr(items: seq<Json>)
    | Obj(names: seq<string>, members: map<string, Json>)

  datatype Kind = StringKind | IntegerKind | NumberKind | BooleanKind

  /** A schema; `Any` is the empty one, `{}`. */
  datatype Schema =
    | Any
    | Prim(kind: Kind, nullable: bool)
    | ArrayOf(items: Schema, nullable: bool)
    | ObjectOf(names: seq<string>, properties: map<string, Schema>, required: seq<string>, nullable: bool)

  const NULLABLE_MEMBERS: set<string> :=
    {"lastUsedAt", "expiresAt", "emailConfirmedAt", "invitedByUserId", "invitedAt", "industry", "unavailableReason"}

  predicate IsInteger(n: real) { n == n.Floor as real }

  function Filter(names: seq<string>, keep: set<string>): (r: seq<string>)
    ensures forall n :: n in r <==> n in names && n in keep
  {
    if names == [] then []
    else (if names[0] in keep then [names[0]] else []) + Filter(names[1..], keep)
  }

  function ToSet(names: seq<string>): set<string> { set n | n in names }

  /** One schema for the values of two. Of two objects a member stays required only when both require it; a conflict of
      types comes to `{}`, and `{}` gives way to whatever it meets. */
  function MergeShapes(a: Schema, b: Schema): Schema {
    if a.ObjectOf? && b.ObjectOf? then
      var names := a.names + Filter(b.names, ToSet(b.names) - ToSet(a.names));
      ObjectOf(names,
               map n | n in a.properties.Keys + b.properties.Keys ::
                 if n in a.properties && n in b.properties then MergeShapes(a.properties[n], b.properties[n])
                 else if n in a.properties then a.properties[n] else b.properties[n],
               Filter(names, a.properties.Keys * b.properties.Keys * ToSet(a.required) * ToSet(b.required)),
               false)
    else if a.ArrayOf? && b.ArrayOf? then ArrayOf(MergeShapes(a.items, b.items), false)
    else if a.Any? then b
    else if b.Any? then a
    else if SameType(a, b) then a else Any
  }

  lemma MergedProperty(a: Schema, b: Schema, n: string)
    requires a.ObjectOf? && b.ObjectOf? && n in MergeShapes(a, b).properties
    ensures n in a.properties || n in b.properties
    ensures MergeShapes(a, b).properties[n] ==
      if n in a.properties && n in b.properties then MergeShapes(a.properties[n], b.properties[n])
      else if n in a.properties then a.properties[n] else b.properties[n]
  {
  }

  predicate SameType(a: Schema, b: Schema) {
    a.Prim? && b.Prim? && a.kind == b.kind
  }

  function Nullable(s: Schema): Schema {
    if s.Any? then s else s.(nullable := true)
  }

  function InferSchema(v: Json): Schema
    decreases v, 0
  {
    match v
    case Null => Any
    case Bool(_) => Prim(BooleanKind, false)
    case Num(n) => Prim(if IsInteger(n) then IntegerKind else NumberKind, false)
    case Str(_) => Prim(StringKind, false)
    case Arr(items) => ArrayOf(if items == [] then Any else InferItems(items), false)
    case Obj(names, members) => ObjectOf(names, map n | n in members :: InferMember(n, members[n]), names, false)
  }

  /** `value.map(inferSchema).reduce(mergeShapes)`. */
  function InferItems(items: seq<Json>): Schema
    requires items != []
    decreases items, 0
  {
    var last := InferSchema(items[|items| - 1]);
    if |items| == 1 then last else MergeShapes(InferItems(items[..|items| - 1]), last)
  }

  function InferMember(name: string, v: Json): Schema
    decreases v, 1
  {
    if name in NULLABLE_MEMBERS then
      if v.Null? then Prim(StringKind, true) else Nullable(InferSchema(v))
    else InferSchema(v)
  }

  // ---- the checker ----

  function KindName(k: Kind): string {
    match k
    case StringKind => "string"
    case IntegerKind => "integer"
    case NumberKind => "number"
    case BooleanKind => "boolean"
  }

  /** `Array.isArray(value) ? 'array' : typeof value`. */
  function Actual(v: Json): string {
    match v
    case Null => "object"
    case Bool(_) => "boolean"
    case Num(_) => "number"
    case Str(_) => "string"
    case Arr(_) => "array"
    case Obj(_, _) => "object"
  }

  predicate FitsKind(k: Kind, v: Json) {
    match k
    case StringKind => v.Str?
    case IntegerKind => v.Num? && IsInteger(v.n)
    case NumberKind => v.Num?
    case BooleanKind => v.Bool?
  }

  predicate AllowsNull(s: Schema) { s.Any? || s.nullable }

  function Expected(type_: string, v: Json, at: string): string {
    at + ": expected " + type_ + ", got " + Actual(v)
  }

  function PropertyOf(s: Schema, key: string): Schema
    requires s.ObjectOf?
  {
    if key in s.properties then s.properties[key] else Any
  }

  /** What `shapeProblems` reports. Of an array only the first element is looked at. */
  function Problems(s: Schema, v: Json, at: string): seq<string>
    decreases v, 1, 0
  {
    if v.Null? then (if AllowsNull(s) then [] else [at + ": is null"])
    else
      match s
      case Any => []
      case Prim(kind, _) => if FitsKind(kind, v) then [] else [Expected(KindName(kind), v, at)]
      case ArrayOf(items, _) =>
        if !v.Arr? then [Expected("array", v, at)]
        else if v.items == [] then [] else Problems(items, v.items[0], at + "[0]")
      case ObjectOf(_, _, required, _) =>
        if !v.Obj? then [Expected("object", v, at)] else MemberProblems(s, v, required, at)
  }

  function MemberProblems(s: Schema, v: Json, required: seq<string>, at: string): seq<string>
    requires s.ObjectOf? && v.Obj?
    decreases v, 0, |required|
  {
    if required == [] then []
    else
      var key := required[0];
      (if key !in v.members then [at + "." + key + ": missing"]
       else Problems(PropertyOf(s, key), v.members[key], at + "." + key))
      + MemberProblems(s, v, required[1..], at)
  }

  lemma MemberProblemsFrom(s: Schema, v: Json, i: nat, at: string, before: seq<string>)
    requires s.ObjectOf? && v.Obj? && i < |s.required|
    ensures var key := s.required[i];
      before + MemberProblems(s, v, s.required[i..], at) ==
      before + (if key !in v.members then [at + "." + key + ": missing"]
                else Problems(PropertyOf(s, key), v.members[key], at + "." + key))
      + MemberProblems(s, v, s.required[i + 1..], at)
  {
    assert s.required[i..][1..] == s.required[i + 1..];
  }

  /** `shapeProblems` as the program has it, collecting into a list. */
  method ShapeProblems(s: Schema, v: Json, at: string) returns (problems: seq<string>)
    ensures problems == Problems(s, v, at)
    decreases v
  {
    if v.Null? {
      if AllowsNull(s) { return []; }
      return [at + ": is null"];
    }
    if s.Any? { return []; }
    if s.Prim? {
      if FitsKind(s.kind, v) { return []; }
      return [Expected(KindName(s.kind), v, at)];
    }
    if s.ObjectOf? {
      if !v.Obj? { return [Expected("object", v, at)]; }
      problems := [];
      for i := 0 to |s.required|
        invariant problems + MemberProblems(s, v, s.required[i..], at) == MemberProblems(s, v, s.required, at)
      {
        hide MemberProblems, Problems;
        var key := s.required[i];
        MemberProblemsFrom(s, v, i, at, problems);
        if key !in v.members {
          problems := problems + [at + "." + key + ": missing"];
        } else {
          var found := ShapeProblems(PropertyOf(s, key), v.members[key], at + "." + key);
          problems := problems + found;
        }
      }
      return;
    }
    if !v.Arr? { return [Expected("array", v, at)]; }
    if v.items != [] {
      problems := ShapeProblems(s.items, v.items[0], at + "[0]");
    } else {
      problems := [];
    }
  }

  /** A stricter checker: every element of an array is looked at, and, with `optional`, every member present. */
  ghost predicate Accepts(s: Schema, v: Json, optional: bool)
    decreases v
  {
    if v.Null? then AllowsNull(s)
    else
      match s
      case Any => true
      case Prim(kind, _) => FitsKind(kind, v)
      case ArrayOf(items, _) => v.Arr? && forall x <- v.items :: Accepts(items, x, optional)
      case ObjectOf(_, properties, required, _) =>
        && v.Obj?
        && (forall key <- required :: key in v.members)
        && (forall key <- v.members :: key in properties && (optional || key in required) ==>
              Accepts(properties[key], v.members[key], optional))
  }

  lemma {:induction false} AcceptedHasNoProblems(s: Schema, v: Json, optional: bool, at: string)
    requires Accepts(s, v, optional)
    ensures Problems(s, v, at) == []
    decreases v, 1, 0
  {
    if s.ArrayOf? && v.Arr? && v.items != [] {
      AcceptedHasNoProblems(s.items, v.items[0], optional, at + "[0]");
    }
    if s.ObjectOf? && v.Obj? {
      AcceptedMembers(s, v, optional, s.required, at);
    }
  }

  lemma {:induction false} AcceptedMembers(s: Schema, v: Json, optional: bool, required: seq<string>, at: string)
    requires s.ObjectOf? && v.Obj? && Accepts(s, v, optional) && (forall key <- required :: key in s.required)
    ensures MemberProblems(s, v, required, at) == []
    decreases v, 0, |required|
  {
    if required != [] {
      var key := required[0];
      assert key in required && key in v.members;
      if key in s.properties {
        AcceptedHasNoProblems(s.properties[key], v.members[key], optional, at + "." + key);
      }
      AcceptedMembers(s, v, optional, required[1..], at);
    }
  }

  /** An object has no problems exactly when every required member is there and has none. */
  lemma {:induction false} NoMemberProblems(s: Schema, v: Json, required: seq<string>, at: string)
    requires s.ObjectOf? && v.Obj?
    ensures MemberProblems(s, v, required, at) == [] <==>
      forall key <- required ::
        key in v.members && Problems(PropertyOf(s, key), v.members[key], at + "." + key) == []
    decreases |required|
  {
    if required != [] {
      NoMemberProblems(s, v, required[1..], at);
      assert required == [required[0]] + required[1..];
    }
  }
}
