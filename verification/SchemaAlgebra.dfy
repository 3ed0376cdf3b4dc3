/** `mergeShapes` as an operation on schemas: when is it an upper bound, when commutative, when associative? */
module SchemaAlgebra {
  import opened JsonSchema

  /** The same schema up to the order of names and of required members. */
  ghost predicate Same(a: Schema, b: Schema)
    decreases a
  {
    match a
    case Any => b.Any?
    case Prim(_, _) => a == b
    case ArrayOf(items, nullable) => b.ArrayOf? && nullable == b.nullable && Same(items, b.items)
    case ObjectOf(names, properties, required, nullable) =>
      && b.ObjectOf? && nullable == b.nullable
      && (forall n :: n in names <==> n in b.names)
      && (forall n :: n in required <==> n in b.required)
      && properties.Keys == b.properties.Keys
      && forall n <- properties :: Same(properties[n], b.properties[n])
  }

  lemma {:induction false} SameReflexive(a: Schema)
    ensures Same(a, a)
  {
    match a
    case ArrayOf(items, _) => SameReflexive(items);
    case ObjectOf(_, properties, _, _) =>
      forall n <- properties ensures Same(properties[n], properties[n]) { SameReflexive(properties[n]); }
    case _ =>
  }

  /** Schemas that are the same accept the same values. */
  lemma {:induction false} SameAccepts(a: Schema, b: Schema, v: Json, optional: bool)
    requires Same(a, b)
    ensures Accepts(a, v, optional) <==> Accepts(b, v, optional)
    decreases v
  {
    if a.ArrayOf? && v.Arr? {
      forall x <- v.items ensures Accepts(a.items, x, optional) <==> Accepts(b.items, x, optional) {
        SameAccepts(a.items, b.items, x, optional);
      }
    }
    if a.ObjectOf? && v.Obj? {
      forall n <- v.members | n in a.properties
        ensures Accepts(a.properties[n], v.members[n], optional) <==> Accepts(b.properties[n], v.members[n], optional)
      {
        SameAccepts(a.properties[n], b.properties[n], v.members[n], optional);
      }
    }
  }

  /** At every common position two primitives of one type are both nullable or both not. */
  ghost predicate FlagsAgree(a: Schema, b: Schema)
    decreases a
  {
    match a
    case Any => true
    case Prim(kind, nullable) => b.Prim? && b.kind == kind ==> b.nullable == nullable
    case ArrayOf(items, _) => b.ArrayOf? ==> FlagsAgree(items, b.items)
    case ObjectOf(_, properties, _, _) =>
      b.ObjectOf? ==> forall n <- properties :: n in b.properties ==> FlagsAgree(properties[n], b.properties[n])
  }

  /** Merging is commutative, agreeing or not: a conflict comes to `{}` either way round. */
  lemma {:induction false} MergeCommutes(a: Schema, b: Schema)
    requires FlagsAgree(a, b)
    ensures Same(MergeShapes(a, b), MergeShapes(b, a))
    decreases a
  {
    if a.ArrayOf? && b.ArrayOf? {
      MergeCommutes(a.items, b.items);
    } else if a.ObjectOf? && b.ObjectOf? {
      var m, m' := MergeShapes(a, b), MergeShapes(b, a);
      forall n <- m.properties ensures Same(m.properties[n], m'.properties[n]) {
        if n in a.properties && n in b.properties {
          MergeCommutes(a.properties[n], b.properties[n]);
        } else {
          SameReflexive(m.properties[n]);
        }
      }
    } else {
      SameReflexive(MergeShapes(a, b));
    }
  }

  /** No conflict at any common position; `{}` conflicts with nothing. */
  ghost predicate Compatible(a: Schema, b: Schema)
    decreases a
  {
    match a
    case Any => true
    case Prim(_, _) => b.Any? || a == b
    case ArrayOf(items, _) => b.Any? || (b.ArrayOf? && Compatible(items, b.items))
    case ObjectOf(_, properties, _, _) =>
      || b.Any?
      || (b.ObjectOf? && forall n <- properties :: n in b.properties ==> Compatible(properties[n], b.properties[n]))
  }

  /** An object schema names its properties, and requires only what it names. */
  ghost predicate Named(a: Schema)
    decreases a
  {
    match a
    case ArrayOf(items, _) => Named(items)
    case ObjectOf(names, properties, required, _) =>
      && (forall n :: n in names <==> n in properties) && (forall n <- required :: n in properties)
      && forall n <- properties :: Named(properties[n])
    case _ => true
  }

  /** Of merged objects, the properties are the union of both and the required members those required in both. */
  lemma MergedObject(a: Schema, b: Schema)
    requires a.ObjectOf? && b.ObjectOf? && Named(a) && Named(b)
    ensures var m := MergeShapes(a, b);
      && m.ObjectOf? && !m.nullable && m.properties.Keys == a.properties.Keys + b.properties.Keys
      && (forall n :: n in m.names <==> n in m.properties)
      && (forall n :: n in m.required <==> n in a.required && n in b.required)
  {
  }

  /** Merging keeps names and properties together. */
  lemma {:induction false} MergeNamed(a: Schema, b: Schema)
    requires Named(a) && Named(b)
    ensures Named(MergeShapes(a, b))
    decreases a
  {
    if a.ArrayOf? && b.ArrayOf? {
      MergeNamed(a.items, b.items);
    } else if a.ObjectOf? && b.ObjectOf? {
      MergedObject(a, b);
      forall n <- MergeShapes(a, b).properties ensures Named(MergeShapes(a, b).properties[n]) {
        if n in a.properties && n in b.properties {
          MergeNamed(a.properties[n], b.properties[n]);
        }
      }
    }
  }

  /** Both ways of merging three objects come to the same names, properties and required members. */
  lemma MergedThree(a: Schema, b: Schema, c: Schema)
    requires a.ObjectOf? && b.ObjectOf? && c.ObjectOf? && Named(a) && Named(b) && Named(c)
    ensures var ab, bc := MergeShapes(a, b), MergeShapes(b, c);
      && ab.ObjectOf? && ab.properties.Keys == a.properties.Keys + b.properties.Keys
      && bc.ObjectOf? && bc.properties.Keys == b.properties.Keys + c.properties.Keys
      && var l, r := MergeShapes(ab, c), MergeShapes(a, bc);
      && l.ObjectOf? && r.ObjectOf? && l.nullable == r.nullable && l.properties.Keys == ab.properties.Keys + c.properties.Keys == r.properties.Keys
      && (forall n :: n in l.names <==> n in r.names) && (forall n :: n in l.required <==> n in r.required)
  {
    hide MergeShapes, Named;
    var ab, bc := MergeShapes(a, b), MergeShapes(b, c);
    MergeNamed(a, b);
    MergeNamed(b, c);
    MergedObject(a, b);
    MergedObject(b, c);
    MergedObject(ab, c);
    MergedObject(a, bc);
    assert MergeShapes(ab, c).properties.Keys == MergeShapes(a, bc).properties.Keys;
  }

  predicate OneType(a: Schema, b: Schema) {
    SameType(a, b) || (a.ArrayOf? && b.ArrayOf?) || (a.ObjectOf? && b.ObjectOf?)
  }

  /** Where the grouping does not matter: nothing is known of one of the three; or all have one type and it does not
      matter for the items, or for any property that all three have; or the middle one conflicts with both others, which
      are the same. */
  ghost predicate Groups(a: Schema, b: Schema, c: Schema)
    decreases a
  {
    || a.Any? || b.Any? || c.Any?
    || (SameType(a, b) && SameType(b, c))
    || (a.ArrayOf? && b.ArrayOf? && c.ArrayOf? && Groups(a.items, b.items, c.items))
    || (a.ObjectOf? && b.ObjectOf? && c.ObjectOf? &&
        forall n <- a.properties :: n in b.properties && n in c.properties ==>
          Groups(a.properties[n], b.properties[n], c.properties[n]))
    || (!OneType(a, b) && !OneType(b, c) && Same(c, a))
  }

  ghost predicate Associate(a: Schema, b: Schema, c: Schema) {
    Same(MergeShapes(MergeShapes(a, b), c), MergeShapes(a, MergeShapes(b, c)))
  }

  /** Merging three schemas is associative exactly then. */
  lemma {:induction false} AssociatesExactly(a: Schema, b: Schema, c: Schema)
    requires Named(a) && Named(b) && Named(c)
    ensures Associate(a, b, c) <==> Groups(a, b, c)
    decreases a
  {
    if a.Any? || b.Any? || c.Any? || (SameType(a, b) && SameType(b, c)) {
      SameReflexive(MergeShapes(MergeShapes(a, b), c));
    } else if a.ArrayOf? && b.ArrayOf? && c.ArrayOf? {
      AssociatesExactly(a.items, b.items, c.items);
    } else if a.ObjectOf? && b.ObjectOf? && c.ObjectOf? {
      ObjectsAssociateExactly(a, b, c);
    }
  }

  lemma {:induction false} ObjectsAssociateExactly(a: Schema, b: Schema, c: Schema)
    requires a.ObjectOf? && b.ObjectOf? && c.ObjectOf? && Named(a) && Named(b) && Named(c)
    ensures Associate(a, b, c) <==> Groups(a, b, c)
    decreases a, 0
  {
    hide MergeShapes, Named, Same, Groups;
    MergedThree(a, b, c);
    var l, r := MergeShapes(MergeShapes(a, b), c), MergeShapes(a, MergeShapes(b, c));
    forall n <- l.properties
      ensures Same(l.properties[n], r.properties[n]) <==>
        (n in a.properties && n in b.properties && n in c.properties ==>
           Groups(a.properties[n], b.properties[n], c.properties[n]))
    {
      PropertyAssociates(a, b, c, n);
    }
    assert forall n <- a.properties :: n in l.properties.Keys;
    SameObjects(l, r);
    GroupsOfObjects(a, b, c);
  }

  lemma SameObjects(a: Schema, b: Schema)
    requires a.ObjectOf? && b.ObjectOf? && a.nullable == b.nullable && a.properties.Keys == b.properties.Keys
    requires (forall n :: n in a.names <==> n in b.names) && (forall n :: n in a.required <==> n in b.required)
    ensures Same(a, b) <==> forall n <- a.properties :: n in b.properties.Keys && Same(a.properties[n], b.properties[n])
  {
  }

  lemma GroupsOfObjects(a: Schema, b: Schema, c: Schema)
    requires a.ObjectOf? && b.ObjectOf? && c.ObjectOf?
    ensures Groups(a, b, c) <==>
      forall n <- a.properties :: n in b.properties && n in c.properties ==>
        Groups(a.properties[n], b.properties[n], c.properties[n])
  {
  }

  lemma {:induction false} PropertyAssociates(a: Schema, b: Schema, c: Schema, n: string)
    requires a.ObjectOf? && b.ObjectOf? && c.ObjectOf? && Named(a) && Named(b) && Named(c)
    requires MergeShapes(a, b).ObjectOf? && MergeShapes(b, c).ObjectOf?
    requires MergeShapes(MergeShapes(a, b), c).ObjectOf? && MergeShapes(a, MergeShapes(b, c)).ObjectOf?
    requires n in MergeShapes(MergeShapes(a, b), c).properties && n in MergeShapes(a, MergeShapes(b, c)).properties
    requires n in a.properties || n in b.properties || n in c.properties
    requires MergeShapes(a, b).properties.Keys == a.properties.Keys + b.properties.Keys
    requires MergeShapes(b, c).properties.Keys == b.properties.Keys + c.properties.Keys
    ensures Same(MergeShapes(MergeShapes(a, b), c).properties[n], MergeShapes(a, MergeShapes(b, c)).properties[n]) <==>
      (n in a.properties && n in b.properties && n in c.properties ==>
         Groups(a.properties[n], b.properties[n], c.properties[n]))
    decreases a, 0, 0
  {
    hide MergeShapes, Same, Groups;
    var ab, bc := MergeShapes(a, b), MergeShapes(b, c);
    MergedProperty(ab, c, n);
    MergedProperty(a, bc, n);
    assert n in ab.properties <==> n in ab.properties.Keys;
    assert n in bc.properties <==> n in bc.properties.Keys;
    if n in a.properties || n in b.properties { MergedProperty(a, b, n); }
    if n in b.properties || n in c.properties { MergedProperty(b, c, n); }
    if n in a.properties && n in b.properties && n in c.properties {
      AssociatesExactly(a.properties[n], b.properties[n], c.properties[n]);
    } else {
      SameReflexive(MergeShapes(ab, c).properties[n]);
    }
  }

  lemma {:induction false} CompatibleGroups(a: Schema, b: Schema, c: Schema)
    requires Compatible(a, b) && Compatible(b, c)
    ensures Groups(a, b, c)
    decreases a
  {
    if a.ArrayOf? && b.ArrayOf? && c.ArrayOf? {
      CompatibleGroups(a.items, b.items, c.items);
    } else if a.ObjectOf? && b.ObjectOf? && c.ObjectOf? {
      forall n <- a.properties | n in b.properties && n in c.properties
        ensures Groups(a.properties[n], b.properties[n], c.properties[n])
      {
        CompatibleGroups(a.properties[n], b.properties[n], c.properties[n]);
      }
    }
  }

  /** In particular when the middle schema conflicts with neither of the others. */
  lemma MergeAssociates(a: Schema, b: Schema, c: Schema)
    requires Compatible(a, b) && Compatible(b, c) && Named(a) && Named(b) && Named(c)
    ensures Associate(a, b, c)
  {
    CompatibleGroups(a, b, c);
    AssociatesExactly(a, b, c);
  }

  /** Without compatibility it is not: `number + integer` comes to `{}`, which then takes up the next `integer`. */
  lemma MergeDoesNotAssociate()
    ensures var number, integer := Prim(NumberKind, false), Prim(IntegerKind, false);
      && MergeShapes(MergeShapes(number, integer), integer) == integer
      && MergeShapes(number, MergeShapes(integer, integer)) == Any
  {
  }

  /** `a` agrees with `b`, and what merging forgets is not there: `{}` meets only `{}`, and no array or object to be
      merged is nullable. */
  ghost predicate Agreeing(a: Schema, b: Schema)
    decreases a
  {
    match a
    case Any => b.Any?
    case Prim(_, _) => a == b
    case ArrayOf(items, nullable) => !nullable && b.ArrayOf? && Agreeing(items, b.items)
    case ObjectOf(_, properties, _, nullable) =>
      && !nullable && b.ObjectOf?
      && forall n <- properties :: n in b.properties ==> Agreeing(properties[n], b.properties[n])
  }

  lemma {:induction false} AgreeingFlags(a: Schema, b: Schema)
    requires Agreeing(a, b)
    ensures FlagsAgree(a, b)
    decreases a
  {
    match a
    case ArrayOf(items, _) => AgreeingFlags(items, b.items);
    case ObjectOf(_, properties, _, _) =>
      forall n <- properties | n in b.properties ensures FlagsAgree(properties[n], b.properties[n]) {
        AgreeingFlags(properties[n], b.properties[n]);
      }
    case _ =>
  }

  lemma {:induction false} AcceptedByMerge(a: Schema, b: Schema, v: Json)
    requires Agreeing(a, b) && Accepts(a, v, false)
    ensures Accepts(MergeShapes(a, b), v, false)
    decreases v
  {
    if a.ArrayOf? && v.Arr? {
      forall x <- v.items ensures Accepts(MergeShapes(a.items, b.items), x, false) {
        AcceptedByMerge(a.items, b.items, x);
      }
    }
    if a.ObjectOf? && v.Obj? {
      var m := MergeShapes(a, b);
      forall n <- v.members | n in m.properties && n in m.required
        ensures Accepts(m.properties[n], v.members[n], false)
      {
        assert n in a.properties && n in b.properties && n in a.required;
        AcceptedByMerge(a.properties[n], b.properties[n], v.members[n]);
      }
    }
  }

  /** Merging is an upper bound on either side: what fits the one that agrees with the other still fits, element by
      element. */
  lemma {:induction false} MergeIsUpperBound(a: Schema, b: Schema, v: Json)
    ensures Agreeing(a, b) && Accepts(a, v, false) ==> Accepts(MergeShapes(a, b), v, false)
    ensures Agreeing(b, a) && Accepts(b, v, false) ==> Accepts(MergeShapes(a, b), v, false)
  {
    if Agreeing(a, b) && Accepts(a, v, false) {
      AcceptedByMerge(a, b, v);
    }
    if Agreeing(b, a) && Accepts(b, v, false) {
      AcceptedByMerge(b, a, v);
      AgreeingFlags(b, a);
      MergeCommutes(b, a);
      SameAccepts(MergeShapes(b, a), MergeShapes(a, b), v, false);
    }
  }

  /** Schemas that are the same find the same values without problems. */
  lemma {:induction false} SameProblems(a: Schema, b: Schema, v: Json, at: string)
    requires Same(a, b)
    ensures Problems(a, v, at) == [] <==> Problems(b, v, at) == []
    decreases v
  {
    if a.ArrayOf? && v.Arr? && v.items != [] {
      SameProblems(a.items, b.items, v.items[0], at + "[0]");
    }
    if a.ObjectOf? && v.Obj? {
      NoMemberProblems(a, v, a.required, at);
      NoMemberProblems(b, v, b.required, at);
      forall n <- v.members | n in a.properties
        ensures Problems(a.properties[n], v.members[n], at + "." + n) == [] <==>
                Problems(b.properties[n], v.members[n], at + "." + n) == []
      {
        SameProblems(a.properties[n], b.properties[n], v.members[n], at + "." + n);
      }
      assert forall n :: n in a.properties <==> n in a.properties.Keys;
      assert forall n :: n in b.properties <==> n in b.properties.Keys;
    }
  }

  lemma {:induction false} NoProblemsWithMerge(a: Schema, b: Schema, v: Json, at: string)
    requires Agreeing(a, b) && Problems(a, v, at) == []
    ensures Problems(MergeShapes(a, b), v, at) == []
    decreases v
  {
    if a.ArrayOf? && v.Arr? && v.items != [] {
      NoProblemsWithMerge(a.items, b.items, v.items[0], at + "[0]");
    }
    if a.ObjectOf? && v.Obj? {
      var m := MergeShapes(a, b);
      NoMemberProblems(a, v, a.required, at);
      NoMemberProblems(m, v, m.required, at);
      forall n <- m.required
        ensures n in v.members && Problems(PropertyOf(m, n), v.members[n], at + "." + n) == []
      {
        assert n in a.properties && n in b.properties && n in a.required;
        NoProblemsWithMerge(a.properties[n], b.properties[n], v.members[n], at + "." + n);
      }
    }
  }

  /** The same bound for the published checker. */
  lemma {:induction false} MergeAddsNoProblems(a: Schema, b: Schema, v: Json, at: string)
    ensures Agreeing(a, b) && Problems(a, v, at) == [] ==> Problems(MergeShapes(a, b), v, at) == []
    ensures Agreeing(b, a) && Problems(b, v, at) == [] ==> Problems(MergeShapes(a, b), v, at) == []
  {
    if Agreeing(a, b) && Problems(a, v, at) == [] {
      NoProblemsWithMerge(a, b, v, at);
    }
    if Agreeing(b, a) && Problems(b, v, at) == [] {
      NoProblemsWithMerge(b, a, v, at);
      AgreeingFlags(b, a);
      MergeCommutes(b, a);
      SameProblems(MergeShapes(b, a), MergeShapes(a, b), v, at);
    }
  }

  /** It is not one otherwise: a number fits `{}`, but not `{}` merged with text. */
  lemma NothingKnownIsNoLowerBound(n: real)
    ensures Accepts(Any, Num(n), false) && !Accepts(MergeShapes(Any, Prim(StringKind, false)), Num(n), false)
  {
  }
}
