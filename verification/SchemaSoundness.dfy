/** Does a value fit the schema inferred from it? `Describes` says which set of values a schema was inferred from;
    merging schemas of agreeing values describes the union, and a schema accepts what it describes. */
module SchemaSoundness {
  import opened JsonSchema

  // ---- agreement ----

  /** Two values are alike in kind at every position they share. `nul` marks a nullable member, where text and null
      are alike. */
  ghost predicate Agree(x: Json, y: Json, nul: bool)
    decreases x
  {
    || (nul && (x.Null? || x.Str?) && (y.Null? || y.Str?))
    || (match x
        case Null => y.Null? && !nul
        case Bool(_) => y.Bool?
        case Num(n) => y.Num? && (IsInteger(n) <==> IsInteger(y.n))
        case Str(_) => y.Str?
        case Arr(items) => y.Arr? && forall a <- items, b <- y.items :: Agree(a, b, false)
        case Obj(_, members) =>
          y.Obj? && forall n <- members :: n in y.members ==> Agree(members[n], y.members[n], n in NULLABLE_MEMBERS))
  }

  predicate Distinct(names: seq<string>) {
    forall i, j | 0 <= i < j < |names| :: names[i] != names[j]
  }

  /** Every array's elements agree, at every depth; an object's names are its members', each once. */
  ghost predicate Coherent(v: Json) {
    match v
    case Arr(items) =>
      (forall x <- items :: Coherent(x)) && (forall x <- items, y <- items :: Agree(x, y, false))
    case Obj(names, members) =>
      && (forall n :: n in names <==> n in members) && Distinct(names)
      && (forall n <- members :: Coherent(members[n]))
    case _ => true
  }

  // ---- what a schema describes ----

  predicate OfKind(k: Kind, v: Json) {
    match k
    case StringKind => v.Str?
    case IntegerKind => v.Num? && IsInteger(v.n)
    case NumberKind => v.Num? && !IsInteger(v.n)
    case BooleanKind => v.Bool?
  }

  ghost function ItemsOf(vs: set<Json>): set<Json> {
    set v, x | v in vs && v.Arr? && x in v.items :: x
  }

  ghost function MembersOf(vs: set<Json>, n: string): set<Json> {
    set v | v in vs && v.Obj? && n in v.members :: v.members[n]
  }

  ghost function NamesOf(vs: set<Json>): set<string> {
    set v, n | v in vs && v.Obj? && n in v.members :: n
  }

  ghost predicate InAll(vs: set<Json>, n: string) {
    forall v <- vs :: v.Obj? && n in v.members
  }

  /** `s` is what inference makes of the values `vs`: nothing of nulls alone, otherwise their common kind; of objects
      the union of their members, of which exactly those present in all are required. */
  ghost predicate Describes(s: Schema, vs: set<Json>, nul: bool) {
    match s
    case Any => forall v <- vs :: v.Null? && !nul
    case Prim(kind, nullable) =>
      vs != {} && nullable == nul && forall v <- vs :: OfKind(kind, v) || (nul && kind == StringKind && v.Null?)
    case ArrayOf(items, _) =>
      vs != {} && (forall v <- vs :: v.Arr?) && Describes(items, ItemsOf(vs), false)
    case ObjectOf(names, properties, required, _) =>
      && vs != {} && (forall v <- vs :: v.Obj?)
      && properties.Keys == NamesOf(vs) && (forall n :: n in names <==> n in properties)
      && (forall n :: n in required <==> InAll(vs, n))
      && (forall n <- properties :: Describes(properties[n], MembersOf(vs, n), n in NULLABLE_MEMBERS))
  }

  lemma {:induction false} DescribedIsAccepted(s: Schema, vs: set<Json>, nul: bool, v: Json)
    requires Describes(s, vs, nul) && v in vs
    ensures Accepts(s, v, true)
    decreases s
  {
    match s
    case ArrayOf(items, _) =>
      forall x <- v.items
        ensures Accepts(items, x, true)
      {
        assert x in ItemsOf(vs);
        DescribedIsAccepted(items, ItemsOf(vs), false, x);
      }
    case ObjectOf(_, properties, required, _) =>
      forall n <- v.members
        ensures n in properties && Accepts(properties[n], v.members[n], true)
      {
        assert n in NamesOf(vs);
        assert v.members[n] in MembersOf(vs, n);
        DescribedIsAccepted(properties[n], MembersOf(vs, n), n in NULLABLE_MEMBERS, v.members[n]);
      }
      assert forall key <- required :: InAll(vs, key);
    case _ =>
  }

  ghost predicate AgreeSets(vs: set<Json>, ws: set<Json>, nul: bool) {
    forall x <- vs, y <- ws :: Agree(x, y, nul)
  }

  lemma ItemsOfUnion(vs: set<Json>, ws: set<Json>)
    ensures ItemsOf(vs + ws) == ItemsOf(vs) + ItemsOf(ws)
  {
  }

  lemma MembersOfUnion(vs: set<Json>, ws: set<Json>, n: string)
    ensures MembersOf(vs + ws, n) == MembersOf(vs, n) + MembersOf(ws, n)
  {
  }

  lemma NamesOfUnion(vs: set<Json>, ws: set<Json>)
    ensures NamesOf(vs + ws) == NamesOf(vs) + NamesOf(ws)
  {
  }

  lemma ItemsAgree(vs: set<Json>, ws: set<Json>, nul: bool)
    requires AgreeSets(vs, ws, nul)
    ensures AgreeSets(ItemsOf(vs), ItemsOf(ws), false)
  {
    forall a <- ItemsOf(vs), b <- ItemsOf(ws)
      ensures Agree(a, b, false)
    {
      var x :| x in vs && x.Arr? && a in x.items;
      var y :| y in ws && y.Arr? && b in y.items;
      assert Agree(x, y, nul);
    }
  }

  lemma MembersAgree(vs: set<Json>, ws: set<Json>, nul: bool, n: string)
    requires AgreeSets(vs, ws, nul)
    ensures AgreeSets(MembersOf(vs, n), MembersOf(ws, n), n in NULLABLE_MEMBERS)
  {
    forall a <- MembersOf(vs, n), b <- MembersOf(ws, n)
      ensures Agree(a, b, n in NULLABLE_MEMBERS)
    {
      var x :| x in vs && x.Obj? && n in x.members && x.members[n] == a;
      var y :| y in ws && y.Obj? && n in y.members && y.members[n] == b;
      assert Agree(x, y, nul);
    }
  }

  /** Schemas of agreeing values, neither empty, have the same type. */
  lemma AgreeingTypes(a: Schema, vs: set<Json>, b: Schema, ws: set<Json>, nul: bool)
    requires Describes(a, vs, nul) && Describes(b, ws, nul) && AgreeSets(vs, ws, nul) && vs != {} && ws != {}
    ensures a.Any? <==> b.Any?
    ensures a.ArrayOf? <==> b.ArrayOf?
    ensures a.ObjectOf? <==> b.ObjectOf?
    ensures a.Prim? ==> SameType(a, b)
  {
    var x :| x in vs;
    var y :| y in ws;
    assert Agree(x, y, nul);
  }

  lemma {:induction false} MergeDescribes(a: Schema, vs: set<Json>, b: Schema, ws: set<Json>, nul: bool)
    requires Describes(a, vs, nul) && Describes(b, ws, nul) && AgreeSets(vs, ws, nul)
    ensures Describes(MergeShapes(a, b), vs + ws, nul)
    decreases a
  {
    if vs == {} {
      assert vs + ws == ws;
    } else if ws == {} {
      assert vs + ws == vs;
    } else {
      AgreeingTypes(a, vs, b, ws, nul);
      if a.ArrayOf? {
        ItemsOfUnion(vs, ws);
        ItemsAgree(vs, ws, nul);
        MergeDescribes(a.items, ItemsOf(vs), b.items, ItemsOf(ws), false);
      } else if a.ObjectOf? {
        MergeObjects(a, vs, b, ws, nul);
      }
    }
  }

  lemma {:induction false} MergeObjects(a: Schema, vs: set<Json>, b: Schema, ws: set<Json>, nul: bool)
    requires a.ObjectOf? && b.ObjectOf? && vs != {} && ws != {}
    requires Describes(a, vs, nul) && Describes(b, ws, nul) && AgreeSets(vs, ws, nul)
    ensures Describes(MergeShapes(a, b), vs + ws, nul)
    decreases a, 0
  {
    hide MergeShapes, NamesOf, MembersOf, InAll;
    var m := MergeShapes(a, b);
    MergedNames(a, vs, b, ws, nul);
    forall n <- m.properties
      ensures Describes(m.properties[n], MembersOf(vs + ws, n), n in NULLABLE_MEMBERS)
    {
      MergeMember(a, vs, b, ws, nul, n);
    }
    forall n
      ensures n in m.required <==> InAll(vs + ws, n)
    {
      MergedRequired(a, vs, b, ws, nul, n);
    }
  }

  lemma MergedNames(a: Schema, vs: set<Json>, b: Schema, ws: set<Json>, nul: bool)
    requires a.ObjectOf? && b.ObjectOf? && Describes(a, vs, nul) && Describes(b, ws, nul)
    ensures var m := MergeShapes(a, b);
      m.ObjectOf? && m.properties.Keys == NamesOf(vs + ws) && forall n :: n in m.names <==> n in m.properties
  {
    NamesOfUnion(vs, ws);
    hide NamesOf;
    assert MergeShapes(a, b).properties.Keys == a.properties.Keys + b.properties.Keys;
  }

  lemma {:induction false} MergeMember(a: Schema, vs: set<Json>, b: Schema, ws: set<Json>, nul: bool, n: string)
    requires a.ObjectOf? && b.ObjectOf?
    requires Describes(a, vs, nul) && Describes(b, ws, nul) && AgreeSets(vs, ws, nul)
    requires n in MergeShapes(a, b).properties
    ensures Describes(MergeShapes(a, b).properties[n], MembersOf(vs + ws, n), n in NULLABLE_MEMBERS)
    decreases a, 0, 0
  {
    hide NamesOf, MembersOf;
    MembersOfUnion(vs, ws, n);
    MergedProperty(a, b, n);
    if n in a.properties && n in b.properties {
      MembersAgree(vs, ws, nul, n);
      MergeDescribes(a.properties[n], MembersOf(vs, n), b.properties[n], MembersOf(ws, n), n in NULLABLE_MEMBERS);
    } else if n in a.properties {
      NotNamed(ws, n);
      assert MembersOf(vs, n) + {} == MembersOf(vs, n);
    } else {
      NotNamed(vs, n);
      assert {} + MembersOf(ws, n) == MembersOf(ws, n);
    }
  }

  lemma NotNamed(vs: set<Json>, n: string)
    requires n !in NamesOf(vs)
    ensures MembersOf(vs, n) == {}
  {
  }

  lemma MergedRequired(a: Schema, vs: set<Json>, b: Schema, ws: set<Json>, nul: bool, n: string)
    requires a.ObjectOf? && b.ObjectOf? && vs != {} && ws != {}
    requires Describes(a, vs, nul) && Describes(b, ws, nul)
    ensures n in MergeShapes(a, b).required <==> InAll(vs + ws, n)
  {
    hide InAll, NamesOf;
    InAllOfUnion(vs, ws, n);
    RequiredIsNamed(a, vs, nul, n);
    RequiredIsNamed(b, ws, nul, n);
    hide Describes;
    MergedRequirement(a, b, n);
  }

  lemma InAllOfUnion(vs: set<Json>, ws: set<Json>, n: string)
    ensures InAll(vs + ws, n) <==> InAll(vs, n) && InAll(ws, n)
  {
  }

  /** What all values have is named, and what is required is what all have. */
  lemma RequiredIsNamed(s: Schema, vs: set<Json>, nul: bool, n: string)
    requires s.ObjectOf? && vs != {} && Describes(s, vs, nul)
    ensures n in s.required <==> InAll(vs, n)
    ensures InAll(vs, n) ==> n in s.properties && n in s.names
  {
    if InAll(vs, n) { InAllIsNamed(vs, n); }
  }

  lemma MergedRequirement(a: Schema, b: Schema, n: string)
    requires a.ObjectOf? && b.ObjectOf?
    requires n in a.required ==> n in a.properties && n in a.names
    requires n in b.required ==> n in b.properties && n in b.names
    ensures n in MergeShapes(a, b).required <==> n in a.required && n in b.required
  {
  }

  lemma InAllIsNamed(vs: set<Json>, n: string)
    requires vs != {} && InAll(vs, n)
    ensures n in NamesOf(vs)
  {
    var v :| v in vs;
  }

  // ---- inference describes ----

  lemma {:induction false} InferDescribes(v: Json)
    requires Coherent(v)
    ensures Describes(InferSchema(v), {v}, false)
    decreases v, 0
  {
    match v
    case Arr(items) =>
      assert ItemsOf({v}) == ElementsOf(items);
      if items != [] {
        InferItemsDescribes(items);
      }
    case Obj(names, members) =>
      assert NamesOf({v}) == members.Keys;
      forall n <- members
        ensures Describes(InferMember(n, members[n]), MembersOf({v}, n), n in NULLABLE_MEMBERS)
      {
        assert MembersOf({v}, n) == {members[n]};
        InferMemberDescribes(n, members[n]);
      }
    case _ =>
  }

  ghost function ElementsOf(items: seq<Json>): set<Json> { set x | x in items }

  lemma {:induction false} InferMemberDescribes(n: string, v: Json)
    requires Coherent(v)
    ensures Describes(InferMember(n, v), {v}, n in NULLABLE_MEMBERS)
    decreases v, 1
  {
    InferDescribes(v);
  }

  /** The item schema of an array of coherent, agreeing elements describes exactly its elements. */
  lemma {:induction false} InferItemsDescribes(items: seq<Json>)
    requires items != [] && (forall x <- items :: Coherent(x)) && (forall x <- items, y <- items :: Agree(x, y, false))
    ensures Describes(InferItems(items), ElementsOf(items), false)
    decreases items, 0
  {
    var last, rest := items[|items| - 1], items[..|items| - 1];
    InferDescribes(last);
    if |items| == 1 {
      assert ElementsOf(items) == {last};
    } else {
      assert items == rest + [last];
      assert ElementsOf(items) == ElementsOf(rest) + {last};
      InferItemsDescribes(rest);
      MergeDescribes(InferItems(rest), ElementsOf(rest), InferSchema(last), {last}, false);
    }
  }

  /** Self-consistency: a coherent value fits the schema inferred from it, for the published checker and for one that
      looks at every element of every array and at every member. */
  lemma SelfConsistent(v: Json, at: string)
    requires Coherent(v)
    ensures Accepts(InferSchema(v), v, true) && Problems(InferSchema(v), v, at) == []
  {
    InferDescribes(v);
    DescribedIsAccepted(InferSchema(v), {v}, false, v);
    AcceptedHasNoProblems(InferSchema(v), v, true, at);
  }

  /** An array's item schema accepts each of its elements, and of agreeing objects its properties are the union of
      their member names and its required members the intersection. */
  lemma FoldOfAgreeing(items: seq<Json>)
    requires items != [] && (forall x <- items :: Coherent(x)) && (forall x <- items, y <- items :: Agree(x, y, false))
    ensures forall x <- items :: Accepts(InferItems(items), x, true)
    ensures items[0].Obj? ==>
      var s := InferItems(items);
      && s.ObjectOf?
      && (forall n :: n in s.properties <==> exists x <- items :: x.Obj? && n in x.members)
      && (forall n :: n in s.required <==> forall x <- items :: x.Obj? && n in x.members)
  {
    var s, vs := InferItems(items), ElementsOf(items);
    InferItemsDescribes(items);
    forall x <- items
      ensures Accepts(s, x, true)
    {
      DescribedIsAccepted(s, vs, false, x);
    }
    if items[0].Obj? {
      assert items[0] in vs;
      assert s.properties.Keys == NamesOf(vs);
      forall n
        ensures n in s.required <==> forall x <- items :: x.Obj? && n in x.members
      {
        assert n in s.required <==> InAll(vs, n);
      }
    }
  }

  // ---- a member dropped ----

  function Without(v: Json, key: string): Json
    requires v.Obj?
  {
    v.(members := v.members - {key})
  }

  /** Take one member away from a coherent object: the checker reports that member missing, and nothing else. */
  lemma DroppedMember(v: Json, key: string, at: string)
    requires v.Obj? && Coherent(v) && key in v.members
    ensures Problems(InferSchema(v), Without(v, key), at) == [at + "." + key + ": missing"]
  {
    hide Problems, MemberProblems, InferMember;
    DroppedFrom(v, key, v.names, at);
    ProblemsOfObjects(v, Without(v, key), at);
  }

  lemma ProblemsOfObjects(v: Json, u: Json, at: string)
    requires v.Obj? && u.Obj?
    ensures Problems(InferSchema(v), u, at) == MemberProblems(InferSchema(v), u, v.names, at)
  {
    hide MemberProblems, InferMember;
  }

  lemma {:induction false} DroppedFrom(v: Json, key: string, required: seq<string>, at: string)
    requires v.Obj? && Coherent(v) && Distinct(required) && forall n <- required :: n in v.members
    ensures MemberProblems(InferSchema(v), Without(v, key), required, at)
         == if key in required then [at + "." + key + ": missing"] else []
  {
    if required == [] { return; }
    var n, rest := required[0], required[1..];
    assert n in required && required == [n] + rest;
    DroppedFrom(v, key, rest, at);
    if n != key {
      InferMemberDescribes(n, v.members[n]);
      DescribedIsAccepted(InferMember(n, v.members[n]), {v.members[n]}, n in NULLABLE_MEMBERS, v.members[n]);
      AcceptedHasNoProblems(InferMember(n, v.members[n]), v.members[n], true, at + "." + n);
    } else {
      assert key !in rest;
    }
  }
}
