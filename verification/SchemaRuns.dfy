/** Exactly when does a value fit the schema inferred from it? For every JSON value, told from the values alone: of
    several samples only the last run of one type counts, and the same holds for the items of arrays and for every member
    that the whole run has. */
module SchemaRuns {
  import opened JsonSchema
  import opened SchemaArrays

  datatype Tag = Unknown | Plain(kind: Kind) | List | Record

  /** What a schema comes from: one value, `nul` when it is that of a nullable member, or several samples in order. */
  datatype Sample = One(v: Json, nul: bool) | Several(parts: seq<Sample>)

  function Ones(items: seq<Json>): (gs: seq<Sample>)
    ensures |gs| == |items| && forall i | 0 <= i < |gs| :: gs[i] == One(items[i], false)
  {
    seq(|items|, i requires 0 <= i < |items| => One(items[i], false))
  }

  // ---- the program's way: fold everything ----

  function SchemaOf(g: Sample): Schema
    decreases g
  {
    match g
    case One(v, nul) =>
      if !nul then InferSchema(v) else if v.Null? then Prim(StringKind, true) else Nullable(InferSchema(v))
    case Several(parts) => Fold(parts)
  }

  function Fold(gs: seq<Sample>): Schema
    decreases gs
  {
    if gs == [] then Any else MergeShapes(Fold(gs[..|gs| - 1]), SchemaOf(Last(gs)))
  }

  // ---- from the values alone ----

  /** The type of what samples come to. */
  function TagOf(g: Sample): Tag
    decreases g
  {
    match g
    case One(v, nul) =>
      (match v
       case Null => if nul then Plain(StringKind) else Unknown
       case Arr(_) => List
       case Obj(_, _) => Record
       case _ => Plain(KindOf(v)))
    case Several(parts) =>
      var run := Run(parts);
      if run == [] then Unknown else assert run[0] in run; TagOf(run[0])
  }

  /** The samples that count: those of one type, unknown ones aside, since nothing was known. */
  function Run(gs: seq<Sample>): (run: seq<Sample>)
    ensures forall g <- run :: g in gs
    decreases gs
  {
    if gs == [] then []
    else
      var run, last := Run(gs[..|gs| - 1]), Last(gs);
      if TagOf(last).Unknown? then run
      else if run == [] then [last]
      else
        assert run[0] in run;
        if TagOf(run[0]) == TagOf(last) then run + [last] else []
  }

  lemma {:induction false} RunIsOfOneTag(gs: seq<Sample>)
    ensures forall g <- Run(gs) :: TagOf(g) == TagOf(Run(gs)[0]) && !TagOf(g).Unknown?
    decreases |gs|
  {
    hide TagOf;
    if gs != [] {
      RunIsOfOneTag(gs[..|gs| - 1]);
    }
  }

  /** Null fits: nothing is known, or the member is nullable and no arrays or objects were merged. */
  predicate NullFits(g: Sample)
    decreases g
  {
    match g
    case One(v, nul) => nul || v.Null?
    case Several(parts) =>
      var run := Run(parts);
      run == [] || (assert run[0] in run; (|run| == 1 || TagOf(run[0]).Plain?) && NullFits(run[0]))
  }

  /** The samples of the items. */
  function Items(g: Sample): Sample
    requires TagOf(g).List?
    decreases g
  {
    match g
    case One(v, _) => Several(Ones(v.items))
    case Several(parts) =>
      var run := Run(parts);
      RunIsOfOneTag(parts);
      Several(seq(|run|, i requires 0 <= i < |run| => assert run[i] in run; Items(run[i])))
  }

  /** Every object has the member. */
  predicate Has(g: Sample, n: string)
    requires TagOf(g).Record?
    decreases g
  {
    match g
    case One(v, _) => n in v.members
    case Several(parts) =>
      RunIsOfOneTag(parts);
      forall x <- Run(parts) :: Has(x, n)
  }

  /** The samples of such a member. */
  function Member(g: Sample, n: string): Sample
    requires TagOf(g).Record? && Has(g, n)
    decreases g
  {
    match g
    case One(v, _) => One(v.members[n], n in NULLABLE_MEMBERS)
    case Several(parts) =>
      var run := Run(parts);
      RunIsOfOneTag(parts);
      Several(seq(|run|, i requires 0 <= i < |run| => assert run[i] in run; Member(run[i], n)))
  }

  /** A value fits what the samples come to. */
  ghost predicate Suits(v: Json, g: Sample)
    decreases v
  {
    if v.Null? then NullFits(g)
    else
      match TagOf(g)
      case Unknown => true
      case Plain(kind) => FitsKind(kind, v)
      case List => v.Arr? && (v.items == [] || Suits(v.items[0], Items(g)))
      case Record => v.Obj? && forall n | Has(g, n) :: n in v.members && Suits(v.members[n], Member(g, n))
  }

  // ---- the run by the changes of type ----

  function Tags(gs: seq<Sample>): seq<Tag> {
    if gs == [] then []
    else Tags(gs[..|gs| - 1]) + if TagOf(Last(gs)).Unknown? then [] else [TagOf(Last(gs))]
  }

  /** The run there is, if any, is of the last type. */
  predicate Runs(run: seq<Sample>, tags: seq<Tag>) {
    (run == [] <==> tags == [] || Changes(tags) % 2 == 1) &&
    (run != [] ==> tags != [] && TagOf(run[0]) == tags[|tags| - 1])
  }

  lemma NextRuns(run: seq<Sample>, tags: seq<Tag>, g: Sample)
    requires Runs(run, tags)
    ensures run == [] || TagOf(run[0]) != TagOf(g) ==> Runs(if run == [] then [g] else [], tags + [TagOf(g)])
    ensures run != [] && TagOf(run[0]) == TagOf(g) ==> Runs(run + [g], tags + [TagOf(g)])
  {
    hide Changes, TagOf;
    ChangesSnoc(tags, TagOf(g));
  }

  lemma NothingRuns()
    ensures Runs([], [])
  {
  }

  /** Nothing is known in the end exactly when nothing was ever known, or the type changed an odd number of times at the
      end; otherwise the run has the last type. */
  lemma {:induction false} RunByChanges(gs: seq<Sample>)
    ensures Runs(Run(gs), Tags(gs))
    decreases |gs|
  {
    hide Runs, TagOf;
    if gs == [] {
      NothingRuns();
    } else {
      var rest, last := gs[..|gs| - 1], Last(gs);
      RunByChanges(rest);
      if TagOf(last).Unknown? {
        assert Tags(gs) == Tags(rest) + [] == Tags(rest);
      } else {
        NextRuns(Run(rest), Tags(rest), last);
      }
    }
  }

  // ---- the fold has the type of the run ----

  predicate Of(s: Schema, tag: Tag) {
    match tag
    case Unknown => s.Any?
    case Plain(kind) => s.Prim? && s.kind == kind
    case List => s.ArrayOf?
    case Record => s.ObjectOf?
  }

  lemma MergeTags(a: Schema, s: Tag, b: Schema, t: Tag)
    requires Of(a, s) && Of(b, t)
    ensures var m := MergeShapes(a, b);
      && (t.Unknown? ==> m == a)
      && (s.Unknown? ==> m == b)
      && (!s.Unknown? && !t.Unknown? && s != t ==> m == Any)
      && (!s.Unknown? && s == t ==> Of(m, s) && (AllowsNull(m) <==> s.Plain? && AllowsNull(a)))
  {
  }

  lemma OneTag(v: Json, nul: bool)
    ensures Of(SchemaOf(One(v, nul)), TagOf(One(v, nul)))
    ensures AllowsNull(SchemaOf(One(v, nul))) <==> NullFits(One(v, nul))
  {
  }

  lemma {:induction false} SchemaTag(g: Sample)
    ensures Of(SchemaOf(g), TagOf(g)) && (AllowsNull(SchemaOf(g)) <==> NullFits(g))
    decreases g
  {
    match g
    case One(v, nul) => OneTag(v, nul);
    case Several(parts) => FoldTag(parts);
  }

  lemma {:induction false} FoldTag(gs: seq<Sample>)
    ensures Of(Fold(gs), TagOf(Several(gs))) && (AllowsNull(Fold(gs)) <==> NullFits(Several(gs)))
    decreases gs
  {
    hide MergeShapes, SchemaOf, AllowsNull, Of;
    SeveralTag(gs);
    SeveralNull(gs);
    if gs == [] {
      AnyIsUnknown();
    } else {
      var rest, last := gs[..|gs| - 1], Last(gs);
      FoldTag(rest);
      SeveralTag(rest);
      SeveralNull(rest);
      SchemaTag(last);
      AnyIsUnknown();
      RunIsOfOneTag(rest);
      hide TagOf, NullFits;
      MergeTags(Fold(rest), TagOf(Several(rest)), SchemaOf(last), TagOf(last));
    }
  }

  lemma AnyIsUnknown()
    ensures Of(Any, Unknown) && AllowsNull(Any)
  {
  }

  lemma SeveralTag(gs: seq<Sample>)
    ensures TagOf(Several(gs)) == if Run(gs) == [] then Unknown else TagOf(Run(gs)[0])
  {
  }

  lemma SeveralNull(gs: seq<Sample>)
    ensures var run := Run(gs);
      NullFits(Several(gs)) <==> run == [] || ((|run| == 1 || TagOf(run[0]).Plain?) && NullFits(run[0]))
  {
  }

  /** The run alone makes the schema. */
  lemma {:induction false} FoldOfRun(gs: seq<Sample>)
    ensures Fold(gs) == Fold(Run(gs))
    decreases |gs|
  {
    hide MergeShapes, SchemaOf, TagOf, Of;
    if gs != [] {
      var rest, last := gs[..|gs| - 1], Last(gs);
      var run := Run(rest);
      FoldOfRun(rest);
      FoldTag(rest);
      SeveralTag(rest);
      RunIsOfOneTag(rest);
      SchemaTag(last);
      MergeTags(Fold(rest), TagOf(Several(rest)), SchemaOf(last), TagOf(last));
      FoldOne(last);
      assert (run + [last])[..|run|] == run && Last(run + [last]) == last;
    }
  }

  lemma FoldOne(g: Sample)
    ensures Fold([g]) == SchemaOf(g)
  {
    assert [g][..0] == [] && Last([g]) == g;
    AnyGivesWay(SchemaOf(g));
  }

  // ---- items ----

  lemma {:induction false} FoldOfOnes(items: seq<Json>)
    ensures Fold(Ones(items)) == if items == [] then Any else InferItems(items)
    decreases |items|
  {
    hide MergeShapes, InferSchema;
    if items != [] {
      var rest, last := items[..|items| - 1], Last(items);
      FoldOfOnes(rest);
      assert Ones(items)[..|items| - 1] == Ones(rest) && Last(Ones(items)) == One(last, false);
      AnyGivesWay(InferSchema(last));
    }
  }

  lemma {:induction false} FoldOfArrays(run: seq<Sample>, items: seq<Sample>)
    requires |run| == |items| && run != []
    requires forall i | 0 <= i < |run| :: SchemaOf(run[i]).ArrayOf? && SchemaOf(run[i]).items == SchemaOf(items[i])
    ensures Fold(run).ArrayOf? && Fold(run).items == Fold(items)
    decreases |run|
  {
    hide SchemaOf;
    var k := |run| - 1;
    assert Last(run) == run[k] && Last(items) == items[k];
    if k == 0 {
      assert run == [run[0]] && items == [items[0]];
      FoldOne(run[0]);
      FoldOne(items[0]);
    } else {
      FoldOfArrays(run[..k], items[..k]);
    }
  }

  lemma {:induction false} ItemsSchema(g: Sample)
    requires TagOf(g).List?
    ensures SchemaOf(g).ArrayOf? && SchemaOf(g).items == SchemaOf(Items(g))
    decreases g
  {
    match g
    case One(v, _) => FoldOfOnes(v.items);
    case Several(parts) =>
      var run := Run(parts);
      RunIsOfOneTag(parts);
      forall i | 0 <= i < |run|
        ensures SchemaOf(run[i]).ArrayOf? && SchemaOf(run[i]).items == SchemaOf(Items(g).parts[i])
      {
        assert run[i] in run;
        ItemsSchema(run[i]);
      }
      FoldOfArrays(run, Items(g).parts);
      FoldOfRun(parts);
  }

  // ---- members ----

  /** The member is named, described and required, or not required. */
  predicate Fair(s: Schema, n: string) {
    s.ObjectOf? && (n in s.required ==> n in s.names && n in s.properties)
  }

  predicate Requires(s: Schema, n: string) {
    s.ObjectOf? && n in s.required
  }

  lemma MergedFair(a: Schema, b: Schema, n: string)
    requires Fair(a, n) && Fair(b, n)
    ensures var m := MergeShapes(a, b);
      && Fair(m, n) && (n in m.required <==> n in a.required && n in b.required)
      && (n in m.required ==> m.properties[n] == MergeShapes(a.properties[n], b.properties[n]))
  {
    MergedMember(a, b, n);
    hide MergeShapes;
  }

  lemma {:induction false} FoldOfFair(run: seq<Sample>, n: string)
    requires run != [] && forall g <- run :: Fair(SchemaOf(g), n)
    ensures Fair(Fold(run), n)
    ensures Requires(Fold(run), n) <==> forall g <- run :: Requires(SchemaOf(g), n)
    decreases |run|
  {
    hide SchemaOf, MergeShapes;
    var k := |run| - 1;
    assert run == run[..k] + [run[k]] && Last(run) == run[k];
    if k == 0 {
      FoldOne(run[0]);
      assert run == [run[0]];
    } else {
      FoldOfFair(run[..k], n);
      MergedFair(Fold(run[..k]), SchemaOf(run[k]), n);
    }
  }

  lemma {:induction false} FoldOfMembers(run: seq<Sample>, members: seq<Sample>, n: string)
    requires |run| == |members| && run != []
    requires forall i | 0 <= i < |run| ::
      Fair(SchemaOf(run[i]), n) && n in SchemaOf(run[i]).required && SchemaOf(run[i]).properties[n] == SchemaOf(members[i])
    ensures Fair(Fold(run), n) && n in Fold(run).required && Fold(run).properties[n] == Fold(members)
    decreases |run|
  {
    hide SchemaOf, MergeShapes;
    var k := |run| - 1;
    assert Last(run) == run[k] && Last(members) == members[k];
    if k == 0 {
      assert run == [run[0]] && members == [members[0]];
      FoldOne(run[0]);
      FoldOne(members[0]);
    } else {
      FoldOfMembers(run[..k], members[..k], n);
      MergedFair(Fold(run[..k]), SchemaOf(run[k]), n);
    }
  }

  /** Every object in the value names its members. */
  predicate Proper(v: Json) {
    match v
    case Arr(items) => forall x <- items :: Proper(x)
    case Obj(_, members) => Names(v) && forall n <- members :: Proper(members[n])
    case _ => true
  }

  predicate AllProper(g: Sample) {
    match g
    case One(v, _) => Proper(v)
    case Several(parts) => forall x <- parts :: AllProper(x)
  }

  lemma {:induction false} MembersSchema(g: Sample, n: string)
    requires TagOf(g).Record? && AllProper(g)
    ensures Fair(SchemaOf(g), n) && (n in SchemaOf(g).required <==> Has(g, n))
    ensures Has(g, n) ==> SchemaOf(g).properties[n] == SchemaOf(Member(g, n))
    decreases g
  {
    match g
    case One(v, _) => InferredObject(v, n);
    case Several(parts) =>
      var run := Run(parts);
      RunIsOfOneTag(parts);
      FoldOfRun(parts);
      forall x <- run
        ensures Fair(SchemaOf(x), n) && (n in SchemaOf(x).required <==> Has(x, n))
        ensures Has(x, n) ==> SchemaOf(x).properties[n] == SchemaOf(Member(x, n))
      {
        MembersSchema(x, n);
      }
      FoldOfFair(run, n);
      if Has(g, n) {
        SeveralMembers(parts, n);
      }
  }

  lemma SeveralMembers(parts: seq<Sample>, n: string)
    requires TagOf(Several(parts)).Record? && Has(Several(parts), n)
    requires forall x <- Run(parts) ::
      (TagOf(x).Record? && Has(x, n) && Fair(SchemaOf(x), n) && Requires(SchemaOf(x), n)
       && SchemaOf(x).properties[n] == SchemaOf(Member(x, n)))
    ensures Fair(Fold(Run(parts)), n) && Requires(Fold(Run(parts)), n)
    ensures Fold(Run(parts)).properties[n] == SchemaOf(Member(Several(parts), n))
  {
    var run, members := Run(parts), Member(Several(parts), n).parts;
    assert |members| == |run|;
    forall i | 0 <= i < |run|
      ensures Fair(SchemaOf(run[i]), n) && n in SchemaOf(run[i]).required
      ensures SchemaOf(run[i]).properties[n] == SchemaOf(members[i])
    {
      assert run[i] in run;
    }
    FoldOfMembers(run, members, n);
  }

  // ---- fitting ----

  lemma ProperItems(g: Sample)
    requires TagOf(g).List? && AllProper(g)
    ensures AllProper(Items(g))
    decreases g
  {
    match g
    case One(v, _) =>
    case Several(parts) =>
      var run := Run(parts);
      RunIsOfOneTag(parts);
      forall i | 0 <= i < |run| ensures AllProper(Items(g).parts[i]) {
        assert run[i] in run;
        ProperItems(run[i]);
      }
  }

  lemma ProperMember(g: Sample, n: string)
    requires TagOf(g).Record? && Has(g, n) && AllProper(g)
    ensures AllProper(Member(g, n))
    decreases g
  {
    match g
    case One(v, _) =>
    case Several(parts) =>
      var run := Run(parts);
      RunIsOfOneTag(parts);
      forall i | 0 <= i < |run| ensures AllProper(Member(g, n).parts[i]) {
        assert run[i] in run;
        ProperMember(run[i], n);
      }
  }

  /** What the checker asks of a value that is not null. */
  lemma NoProblems(s: Schema, v: Json, at: string)
    requires !v.Null?
    ensures s.Any? ==> Problems(s, v, at) == []
    ensures s.Prim? ==> (Problems(s, v, at) == [] <==> FitsKind(s.kind, v))
    ensures s.ArrayOf? ==>
      (Problems(s, v, at) == [] <==> v.Arr? && (v.items == [] || Problems(s.items, v.items[0], at + "[0]") == []))
    ensures s.ObjectOf? ==>
      (Problems(s, v, at) == [] <==>
        v.Obj? && forall n <- s.required :: n in v.members && Problems(PropertyOf(s, n), v.members[n], at + "." + n) == [])
  {
    if s.ObjectOf? && v.Obj? {
      NoMemberProblems(s, v, s.required, at);
    }
  }

  /** A value has no problems with what any samples come to if and only if it suits them. */
  lemma {:induction false} SuitsExactly(v: Json, g: Sample, at: string)
    requires AllProper(g)
    ensures Problems(SchemaOf(g), v, at) == [] <==> Suits(v, g)
    decreases v, 1
  {
    hide SchemaOf, TagOf, AllProper, NullFits, Items, Has, Member, Proper, FitsKind;
    SchemaTag(g);
    if v.Null? {
      NullProblems(SchemaOf(g), at);
    } else {
      NoProblems(SchemaOf(g), v, at);
      hide Problems;
      match TagOf(g)
      case Unknown =>
      case Plain(_) =>
      case List =>
        ItemsSchema(g);
        ProperItems(g);
        if v.Arr? && v.items != [] {
          SuitsExactly(v.items[0], Items(g), at + "[0]");
        }
      case Record => RecordSuits(v, g, at);
    }
  }

  lemma NullProblems(s: Schema, at: string)
    ensures Problems(s, Null, at) == [] <==> AllowsNull(s)
  {
  }

  lemma {:induction false} RecordSuits(v: Json, g: Sample, at: string)
    requires AllProper(g) && TagOf(g).Record? && SchemaOf(g).ObjectOf? && !v.Null?
    ensures Suits(v, g) <==>
      v.Obj? && forall n <- SchemaOf(g).required ::
        n in v.members && Problems(PropertyOf(SchemaOf(g), n), v.members[n], at + "." + n) == []
    decreases v, 0
  {
    hide SchemaOf, TagOf, AllProper, NullFits, Has, Member, Problems;
    var s := SchemaOf(g);
    if v.Obj? {
      forall n
        ensures n in s.required <==> Has(g, n)
        ensures n in s.required && n in v.members ==>
          (Problems(PropertyOf(s, n), v.members[n], at + "." + n) == [] <==> Suits(v.members[n], Member(g, n)))
      {
        MembersSchema(g, n);
        if Has(g, n) && n in v.members {
          ProperMember(g, n);
          SuitsExactly(v.members[n], Member(g, n), at + "." + n);
        }
      }
    }
  }

  /** In every array, at any depth, the first element suits the elements. */
  ghost predicate Consistent(v: Json) {
    match v
    case Arr(items) => items == [] || Suits(items[0], Several(Ones(items)))
    case Obj(_, members) => forall n <- members :: Consistent(members[n])
    case _ => true
  }

  /** Every JSON value fits the schema inferred from it if and only if, in each array that lies in it directly or within
      objects only, the first element suits the elements. */
  lemma {:induction false} FitsExactly(v: Json, at: string)
    requires Proper(v)
    ensures FitsItself(v, at) <==> Consistent(v)
    decreases v
  {
    match v
    case Arr(items) =>
      FoldOfOnes(items);
      if items != [] {
        SuitsExactly(items[0], Several(Ones(items)), at + "[0]");
        NoProblems(InferSchema(v), v, at);
      }
    case Obj(_, members) =>
      forall n <- members
        ensures FitsItself(members[n], at + "." + n) <==> Consistent(members[n])
      {
        FitsExactly(members[n], at + "." + n);
      }
      ObjectFitsExactly(v, at);
    case _ =>
  }
}
