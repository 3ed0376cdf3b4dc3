/** Exactly when does a value fit the schema inferred from it? `{}` means both "nothing known" and "anything goes", so an
    array is judged by how its elements follow one another. */
module SchemaArrays {
  import opened JsonSchema

  /** The published checker finds nothing wrong with a value and the schema inferred from it. */
  predicate FitsItself(v: Json, at: string) {
    Problems(InferSchema(v), v, at) == []
  }

  // ---- any array ----

  lemma {:induction false} FoldForgets(pre: seq<Json>, suf: seq<Json>)
    requires pre != [] && suf != [] && InferItems(pre).Any?
    ensures InferItems(pre + suf) == InferItems(suf)
    decreases |suf|
  {
    var last, rest := suf[|suf| - 1], suf[..|suf| - 1];
    assert (pre + suf)[..|pre + suf| - 1] == pre + rest;
    if rest == [] {
      assert pre + rest == pre;
    } else {
      FoldForgets(pre, rest);
    }
  }

  /** Wherever the elements read so far have come to `{}`, the elements after that point alone make the item schema: the
      array fits its own schema if and only if its first element fits theirs. */
  lemma RelearnedFromSuffix(pre: seq<Json>, suf: seq<Json>, at: string)
    requires pre != [] && suf != [] && InferItems(pre).Any?
    ensures InferItems(pre + suf) == InferItems(suf)
    ensures FitsItself(Arr(pre + suf), at) <==> Problems(InferItems(suf), pre[0], at + "[0]") == []
  {
    FoldForgets(pre, suf);
  }

  // ---- arrays of scalars ----

  predicate Scalar(v: Json) {
    !v.Arr? && !v.Obj?
  }

  function KindOf(v: Json): Kind
    requires Scalar(v) && !v.Null?
  {
    match v
    case Bool(_) => BooleanKind
    case Num(n) => if IsInteger(n) then IntegerKind else NumberKind
    case _ => StringKind
  }

  /** The kinds of the elements that are not null, in order. */
  function Kinds(items: seq<Json>): seq<Kind>
    requires forall x <- items :: Scalar(x)
  {
    if items == [] then []
    else Kinds(items[..|items| - 1]) + if Last(items).Null? then [] else [KindOf(Last(items))]
  }

  function Last<T>(s: seq<T>): T
    requires s != []
  {
    s[|s| - 1]
  }

  /** How often the kind, or whatever is listed, changes at the end: the length of the longest run of neighbours, up to
      the last, that all differ. */
  function Changes<T(==)>(ks: seq<T>): (n: nat)
    ensures n < |ks| || (ks == [] && n == 0)
    ensures forall i | |ks| - n <= i < |ks| :: ks[i - 1] != ks[i]
    ensures n + 1 < |ks| ==> ks[|ks| - n - 2] == ks[|ks| - n - 1]
  {
    if |ks| < 2 || ks[|ks| - 2] == ks[|ks| - 1] then 0 else 1 + Changes(ks[..|ks| - 1])
  }

  lemma ChangesSnoc<T>(ks: seq<T>, k: T)
    ensures Changes(ks + [k]) == if ks == [] || Last(ks) == k then 0 else 1 + Changes(ks)
  {
    assert (ks + [k])[..|ks|] == ks;
  }

  /** What a scalar's schema does to the fold so far. */
  lemma MergeScalar(a: Schema, v: Json)
    requires Scalar(v) && (a.Any? || (a.Prim? && !a.nullable))
    ensures MergeShapes(a, InferSchema(v)) ==
      if v.Null? then a
      else if a.Any? || a.kind == KindOf(v) then Prim(KindOf(v), false)
      else Any
  {
  }

  /** The fold of scalars, by their kinds. */
  function Settled(ks: seq<Kind>): Schema {
    if ks == [] || Changes(ks) % 2 == 1 then Any else Prim(Last(ks), false)
  }

  lemma SettledSnoc(ks: seq<Kind>, k: Kind)
    ensures Settled(ks + [k]) ==
      if Settled(ks).Any? || Settled(ks).kind == k then Prim(k, false) else Any
  {
    hide Changes;
    ChangesSnoc(ks, k);
  }

  /** Of scalars nothing is known in the end exactly when all are null or the kind changed an odd number of times at the
      end; otherwise the last kind is. */
  lemma {:induction false} FoldOfScalars(items: seq<Json>)
    requires items != [] && forall x <- items :: Scalar(x)
    ensures InferItems(items) == Settled(Kinds(items))
    decreases |items|
  {
    hide MergeShapes, InferSchema, Settled, Changes;
    var last, rest := Last(items), items[..|items| - 1];
    assert forall x <- rest :: x in items;
    var before := if rest == [] then Any else InferItems(rest);
    if rest == [] {
      assert Kinds(rest) == [];
      assert Settled([]) == Any by { NothingSettled(); }
      AnyGivesWay(InferSchema(last));
    } else {
      FoldOfScalars(rest);
      assert InferItems(items) == MergeShapes(before, InferSchema(last));
    }
    SettledForm(Kinds(rest));
    MergeScalar(before, last);
    if last.Null? {
      assert Kinds(items) == Kinds(rest);
    } else {
      SettledSnoc(Kinds(rest), KindOf(last));
    }
  }

  lemma NothingSettled()
    ensures Settled([]) == Any
  {
  }

  lemma SettledForm(ks: seq<Kind>)
    ensures Settled(ks).Any? || (Settled(ks).Prim? && !Settled(ks).nullable)
  {
  }

  lemma AnyGivesWay(b: Schema)
    ensures MergeShapes(Any, b) == b
  {
  }

  /** An array of scalars, as its elements show, can be described: it is empty or all null, or the kind changed an odd
      number of times at the end, or the first element is of the last kind (an integer also being a number). */
  predicate Describable(items: seq<Json>)
    requires forall x <- items :: Scalar(x)
  {
    var ks := Kinds(items);
    ks == [] || Changes(ks) % 2 == 1 || FitsKind(Last(ks), items[0])
  }

  lemma PrimFits(kind: Kind, v: Json, at: string)
    ensures Problems(Prim(kind, false), v, at) == [] <==> FitsKind(kind, v)
  {
  }

  /** An array of scalars fits its own schema if and only if its elements say so. */
  lemma ScalarsFitExactly(items: seq<Json>, at: string)
    requires forall x <- items :: Scalar(x)
    ensures FitsItself(Arr(items), at) <==> Describable(items)
  {
    if items != [] {
      FoldOfScalars(items);
      var s := Settled(Kinds(items));
      assert InferSchema(Arr(items)) == ArrayOf(s, false);
      assert Problems(ArrayOf(s, false), Arr(items), at) == Problems(s, items[0], at + "[0]");
      assert Problems(Any, items[0], at + "[0]") == [];
      if s.Prim? {
        PrimFits(s.kind, items[0], at + "[0]");
      }
    }
  }

  // ---- objects ----

  lemma MemberFits(name: string, v: Json, at: string)
    ensures Problems(InferMember(name, v), v, at) == [] <==> FitsItself(v, at)
  {
    var s, t := InferSchema(v), InferMember(name, v);
    if s.ObjectOf? {
      NoMemberProblems(s, v, s.required, at);
      NoMemberProblems(t, v, s.required, at);
    }
  }

  /** An object names its members. */
  predicate Names(v: Json)
    requires v.Obj?
  {
    ToSet(v.names) == v.members.Keys
  }

  /** Any object fits its own schema if and only if each of its members fits its own. */
  lemma ObjectFitsExactly(v: Json, at: string)
    requires v.Obj? && Names(v)
    ensures FitsItself(v, at) <==> forall n <- v.members :: FitsItself(v.members[n], at + "." + n)
  {
    var s := InferSchema(v);
    NoMemberProblems(s, v, v.names, at);
    assert forall n :: n in v.members <==> n in v.names by {
      assert forall n :: n in v.names <==> n in ToSet(v.names);
    }
    forall n <- v.members
      ensures Problems(PropertyOf(s, n), v.members[n], at + "." + n) == [] <==> FitsItself(v.members[n], at + "." + n)
    {
      MemberFits(n, v.members[n], at + "." + n);
    }
  }

  /** No array holds an array or an object. */
  predicate Flat(v: Json) {
    match v
    case Arr(items) => forall x <- items :: Scalar(x)
    case Obj(_, members) => Names(v) && forall n <- members :: Flat(members[n])
    case _ => true
  }

  predicate Consistent(v: Json)
    requires Flat(v)
  {
    match v
    case Arr(items) => Describable(items)
    case Obj(_, members) => forall n <- members :: Consistent(members[n])
    case _ => true
  }

  /** Every value whose arrays hold scalars only, however deep they lie, fits the schema inferred from it if and only if
      each of its arrays is describable. */
  lemma {:induction false} FlatFitsExactly(v: Json, at: string)
    requires Flat(v)
    ensures FitsItself(v, at) <==> Consistent(v)
    decreases v
  {
    match v
    case Arr(items) => ScalarsFitExactly(items, at);
    case Obj(_, members) =>
      forall n <- members
        ensures FitsItself(members[n], at + "." + n) <==> Consistent(members[n])
      {
        FlatFitsExactly(members[n], at + "." + n);
      }
      ObjectFitsExactly(v, at);
    case _ =>
  }

  // ---- arrays of objects ----

  /** Every element is an object with this member. */
  predicate InEvery(items: seq<Json>, n: string) {
    forall x <- items :: x.Obj? && n in x.members
  }

  predicate Objects(items: seq<Json>) {
    forall x <- items :: x.Obj? && Names(x)
  }

  /** The values of one member, in order. */
  function Column(items: seq<Json>, n: string): (vs: seq<Json>)
    requires InEvery(items, n)
    ensures |vs| == |items| && forall i | 0 <= i < |items| :: vs[i] == items[i].members[n]
  {
    seq(|items|, i requires 0 <= i < |items| => items[i].members[n])
  }

  /** What the fold makes of one member that every element has. */
  function MemberFold(items: seq<Json>, n: string): Schema
    requires items != [] && InEvery(items, n)
  {
    var last := InferMember(n, Last(items).members[n]);
    if |items| == 1 then last else MergeShapes(MemberFold(items[..|items| - 1], n), last)
  }

  lemma MergedMember(a: Schema, b: Schema, n: string)
    requires a.ObjectOf? && b.ObjectOf?
    ensures var m := MergeShapes(a, b);
      && m.ObjectOf?
      && (n in m.required <==> n in a.required && n in b.required && n in a.properties && n in b.properties
                               && (n in a.names || n in b.names))
      && (n in a.names || n in b.names ==> n in m.names)
      && (n in a.properties && n in b.properties ==>
            n in m.properties && m.properties[n] == MergeShapes(a.properties[n], b.properties[n]))
  {
  }

  lemma InferredObject(v: Json, n: string)
    requires v.Obj? && Names(v)
    ensures var s := InferSchema(v);
      && s.ObjectOf? && s.required == s.names && (n in s.names <==> n in v.members) && s.properties.Keys == v.members.Keys
      && (n in v.members ==> s.properties[n] == InferMember(n, v.members[n]))
  {
    assert n in v.names <==> n in ToSet(v.names);
  }

  lemma InEverySnoc(items: seq<Json>, n: string)
    requires items != []
    ensures InEvery(items, n) <==> InEvery(items[..|items| - 1], n) && Last(items).Obj? && n in Last(items).members
  {
    assert items == items[..|items| - 1] + [Last(items)];
  }

  /** Of objects the fold requires exactly the members that every element has, and folds each of them by itself. */
  lemma {:induction false} FoldOfObjects(items: seq<Json>, n: string)
    requires items != [] && Objects(items)
    ensures InferItems(items).ObjectOf?
    ensures n in InferItems(items).required <==> InEvery(items, n)
    ensures InEvery(items, n) ==>
      var s := InferItems(items);
      n in s.names && n in s.properties && s.properties[n] == MemberFold(items, n)
    decreases |items|
  {
    hide MergeShapes, InferSchema, InferMember, InEvery, Names;
    var last, rest := Last(items), items[..|items| - 1];
    assert last in items && forall x <- rest :: x in items;
    InEverySnoc(items, n);
    InferredObject(last, n);
    assert n in InferSchema(last).properties <==> n in InferSchema(last).properties.Keys;
    if rest == [] {
      assert InEvery([], n) by { NoneLacks(n); }
    } else {
      FoldOfObjects(rest, n);
      MergedMember(InferItems(rest), InferSchema(last), n);
    }
  }

  lemma NoneLacks(n: string)
    ensures InEvery([], n)
  {
  }

  /** An array of objects fits its own schema if and only if, for each member that all of them have, the first one's
      value fits what the values of that member come to. */
  lemma ObjectsFitExactly(items: seq<Json>, at: string)
    requires items != [] && Objects(items)
    ensures FitsItself(Arr(items), at) <==>
      forall n <- items[0].members ::
        InEvery(items, n) ==> Problems(MemberFold(items, n), items[0].members[n], at + "[0]" + "." + n) == []
  {
    var s := InferItems(items);
    FoldOfObjects(items, "");
    assert InferSchema(Arr(items)) == ArrayOf(s, false);
    assert Problems(ArrayOf(s, false), Arr(items), at) == Problems(s, items[0], at + "[0]");
    NoMemberProblems(s, items[0], s.required, at + "[0]");
    forall n
      ensures n in s.required <==> InEvery(items, n)
      ensures InEvery(items, n) ==> n in items[0].members && PropertyOf(s, n) == MemberFold(items, n)
    {
      FoldOfObjects(items, n);
    }
  }

  /** In a nullable member a null counts as text. */
  function Texted(v: Json): Json {
    if v.Null? then Str("") else v
  }

  function TextedColumn(items: seq<Json>, n: string): (vs: seq<Json>)
    requires InEvery(items, n)
    ensures |vs| == |items| && forall i | 0 <= i < |items| :: vs[i] == Texted(items[i].members[n])
  {
    seq(|items|, i requires 0 <= i < |items| => Texted(items[i].members[n]))
  }

  /** The elements are objects of scalars. */
  predicate Records(items: seq<Json>) {
    Objects(items) && forall x <- items :: forall n <- x.members :: Scalar(x.members[n])
  }

  /** A plain member folds like the array of its values ... */
  lemma {:induction false} PlainMemberFold(items: seq<Json>, n: string)
    requires items != [] && InEvery(items, n) && n !in NULLABLE_MEMBERS
    ensures MemberFold(items, n) == InferItems(Column(items, n))
    decreases |items|
  {
    var rest := items[..|items| - 1];
    if rest != [] {
      PlainMemberFold(rest, n);
      assert Column(items, n)[..|items| - 1] == Column(rest, n);
    }
  }

  /** ... and a nullable one, holding scalars, like the array of its values with text for null, made nullable. */
  lemma {:induction false} NullableMemberFold(items: seq<Json>, n: string)
    requires items != [] && InEvery(items, n) && n in NULLABLE_MEMBERS
    requires forall v <- TextedColumn(items, n) :: Scalar(v)
    ensures MemberFold(items, n) == Nullable(InferItems(TextedColumn(items, n)))
    decreases |items|
  {
    hide Scalar, MergeShapes, Nullable, InferSchema, InferMember, Texted;
    var last, rest, vs := Last(items), items[..|items| - 1], TextedColumn(items, n);
    InEverySnoc(items, n);
    assert Last(vs) == Texted(last.members[n]) && Last(vs) in vs;
    TextedScalar(last.members[n]);
    if rest == [] {
      MergeNullable(Any, last.members[n], n);
      NoneKnown(InferMember(n, last.members[n]), InferSchema(Texted(last.members[n])));
    } else {
      var before := TextedColumn(rest, n);
      assert vs[..|items| - 1] == before && forall v <- before :: v in vs;
      NullableMemberFold(rest, n);
      FoldOfScalars(before);
      SettledForm(Kinds(before));
      MergeNullable(InferItems(before), last.members[n], n);
    }
  }

  lemma TextedScalar(v: Json)
    ensures Scalar(Texted(v)) <==> Scalar(v)
  {
  }

  lemma NoneKnown(a: Schema, b: Schema)
    ensures MergeShapes(Nullable(Any), a) == a && MergeShapes(Any, b) == b
  {
  }

  lemma ScalarColumns(items: seq<Json>, n: string)
    requires InEvery(items, n) && Records(items)
    ensures forall v <- Column(items, n) :: Scalar(v)
    ensures forall v <- TextedColumn(items, n) :: Scalar(v)
  {
  }

  lemma MergeNullable(a: Schema, v: Json, n: string)
    requires (a.Any? || (a.Prim? && !a.nullable)) && Scalar(v) && n in NULLABLE_MEMBERS
    ensures MergeShapes(Nullable(a), InferMember(n, v)) == Nullable(MergeShapes(a, InferSchema(Texted(v))))
  {
  }

  /** One member's values, in order, can be described. */
  predicate ColumnDescribable(items: seq<Json>, n: string)
    requires items != [] && InEvery(items, n) && Records(items)
  {
    ScalarColumns(items, n);
    if n in NULLABLE_MEMBERS then items[0].members[n].Null? || Describable(TextedColumn(items, n))
    else Describable(Column(items, n))
  }

  lemma NullableFits(s: Schema, v: Json, at: string)
    requires s.Any? || s.Prim?
    ensures Problems(Nullable(s), v, at) == [] <==> v.Null? || Problems(s, v, at) == []
  {
  }

  lemma ColumnFits(items: seq<Json>, n: string, at: string)
    requires items != [] && InEvery(items, n) && Records(items)
    ensures Problems(MemberFold(items, n), items[0].members[n], at) == [] <==> ColumnDescribable(items, n)
  {
    ScalarColumns(items, n);
    if n in NULLABLE_MEMBERS {
      NullableMemberFold(items, n);
    } else {
      PlainMemberFold(items, n);
    }
    var vs := if n in NULLABLE_MEMBERS then TextedColumn(items, n) else Column(items, n);
    FoldOfScalars(vs);
    SettledForm(Kinds(vs));
    var s := Settled(Kinds(vs));
    if n in NULLABLE_MEMBERS {
      NullableFits(s, items[0].members[n], at);
    }
    if s.Prim? {
      PrimFits(s.kind, items[0].members[n], at);
    }
    assert Problems(Any, items[0].members[n], at) == [];
  }

  /** A list of records, the usual answer, fits its own schema if and only if each member that all of them have is
      describable; members that some record lacks are not looked at. */
  lemma RecordsFitExactly(items: seq<Json>, at: string)
    requires items != [] && Records(items)
    ensures FitsItself(Arr(items), at) <==>
      forall n <- items[0].members :: InEvery(items, n) ==> ColumnDescribable(items, n)
  {
    hide Problems, FitsItself, ColumnDescribable;
    ObjectsFitExactly(items, at);
    forall n <- items[0].members | InEvery(items, n)
      ensures Problems(MemberFold(items, n), items[0].members[n], at + "[0]" + "." + n) == [] <==> ColumnDescribable(items, n)
    {
      ColumnFits(items, n, at + "[0]" + "." + n);
    }
  }

  // ---- the smallest failure ----

  lemma KindsSnoc(items: seq<Json>, v: Json)
    requires (forall x <- items :: Scalar(x)) && Scalar(v) && !v.Null?
    ensures forall x <- items + [v] :: Scalar(x)
    ensures Kinds(items + [v]) == Kinds(items) + [KindOf(v)]
  {
    assert (items + [v])[..|items|] == items;
  }

  lemma NoKinds()
    ensures Kinds([]) == []
  {
  }

  lemma KindsOfThree(a: Json, b: Json, c: Json)
    requires Scalar(a) && Scalar(b) && Scalar(c) && !a.Null? && !b.Null? && !c.Null?
    ensures Kinds([a, b, c]) == [KindOf(a), KindOf(b), KindOf(c)]
  {
    hide Kinds, KindOf, Scalar;
    NoKinds();
    KindsSnoc([], a);
    KindsSnoc([a], b);
    KindsSnoc([a, b], c);
    assert [] + [a] == [a] && [a] + [b] == [a, b] && [a, b] + [c] == [a, b, c];
  }

  lemma FractionIsNoInteger(at: string)
    ensures Problems(Prim(IntegerKind, false), Num(1.5), at) == [at + ": expected " + "integer" + ", got " + "number"]
  {
    assert (1.5).Floor == 1;
  }

  lemma FractionAndIntegers()
    ensures KindOf(Num(1.5)) == NumberKind && KindOf(Num(2.0)) == KindOf(Num(3.0)) == IntegerKind
  {
    assert (1.5).Floor == 1 && (2.0).Floor == 2 && (3.0).Floor == 3;
  }

  lemma Message()
    ensures "$" + "[0]" + ": expected " + "integer" + ", got " + "number" == "$[0]: expected integer, got number"
  {
  }

  /** The unconditional claim is false: a fraction and an integer come to `{}`, and the next integer re-teaches it. */
  lemma FractionThenIntegers()
    ensures var v := Arr([Num(1.5), Num(2.0), Num(3.0)]);
      Problems(InferSchema(v), v, "$") == ["$[0]: expected integer, got number"]
  {
    hide InferItems, FitsKind, Expected;
    var items := [Num(1.5), Num(2.0), Num(3.0)];
    KindsOfThree(items[0], items[1], items[2]);
    FractionAndIntegers();
    FoldOfScalars(items);
    assert InferSchema(Arr(items)) == ArrayOf(Prim(IntegerKind, false), false);
    FractionIsNoInteger("$" + "[0]");
    Message();
  }
}
