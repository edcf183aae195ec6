/**
 * The schema a merchant's vocabulary stands for (internal/accessmodel/merchant.go),
 * as a value: it validates, declares nothing inert, and means grants that flow
 * down containment. Its shape:
 *
 *   group, role    member_of and holder: named sets of app users
 *   scope kind     parent to every scope kind, when there are several; one grant
 *                  relation for each action of the namespace, and can_all;
 *                  rule a = can_a + can_all [+ parent->a]
 *   resource       parent to every scope kind, when there is one; one grant
 *                  relation for each of its own actions, can_all and owner;
 *                  rule a = can_a + can_all + owner [+ parent->a]
 */
module Merchant {
  import opened Schemas
  import opened Sorting
  import opened Validation
  import Text

  /** Scope kinds sorted, and each capability resource with the actions it names. */
  datatype Vocabulary = Vocabulary(organisation: string, scopes: seq<string>, resources: map<string, set<string>>)

  const STRUCTURAL: set<string> := {"app_user", "group", "role"}

  function ActionsOf(v: Vocabulary): set<string> {
    set r, a | r in v.resources && a in v.resources[r] :: a
  }

  function ResourceTypes(v: Vocabulary): set<string> {
    set r | r in v.resources && r !in v.scopes
  }

  predicate Nests(v: Vocabulary) {
    |v.scopes| > 1 || (|v.scopes| > 0 && ResourceTypes(v) != {})
  }

  function Can(action: string): string {
    "can_" + action
  }

  const CAN_ALL := "can_all"

  const MEMBERS: seq<TargetSpec> := [TargetSpec("app_user", ""), TargetSpec("group", "member_of")]

  const GRANTEES: seq<TargetSpec> := [TargetSpec("app_user", ""), TargetSpec("group", "member_of"), TargetSpec("role", "holder")]

  const OWNERS: seq<TargetSpec> := [TargetSpec("app_user", "")]

  function Parents(v: Vocabulary): (targets: seq<TargetSpec>)
    ensures |targets| == |v.scopes|
    ensures forall i :: 0 <= i < |targets| ==> targets[i] == TargetSpec(v.scopes[i], "")
  {
    seq(|v.scopes|, i requires 0 <= i < |v.scopes| => TargetSpec(v.scopes[i], ""))
  }

  /** The grant relation of each action. */
  function GrantNames(actions: set<string>): set<string> {
    set a | a in actions :: Can(a)
  }

  predicate IsGrant(rel: string) {
    |rel| >= 4 && rel[..4] == "can_"
  }

  /** The targets of a relation, the same on every type that carries it. */
  function TargetsOf(v: Vocabulary, rel: string): seq<TargetSpec> {
    if rel == "parent" then Parents(v)
    else if rel == "owner" then OWNERS
    else if IsGrant(rel) then GRANTEES
    else MEMBERS
  }

  function RuleBody(action: string, owned: bool, nested: bool): Expr {
    Union([RelationTerm(Can(action)), RelationTerm(CAN_ALL)]
          + (if owned then [RelationTerm("owner")] else [])
          + (if nested then [ArrowTerm("parent", action)] else []))
  }

  /** The relations a type carries. */
  function Carried(v: Vocabulary, typ: string): set<string> {
    if typ in v.scopes then
      GrantNames(ActionsOf(v)) + (if ActionsOf(v) != {} then {CAN_ALL} else {}) + (if |v.scopes| > 1 then {"parent"} else {})
    else if typ in v.resources then
      GrantNames(v.resources[typ]) + {CAN_ALL, "owner"} + (if |v.scopes| > 0 then {"parent"} else {})
    else if typ == "group" then {"member_of"}
    else if typ == "role" then {"holder"}
    else {}
  }

  /**
   * The actions a type answers: a container every action of the namespace, a
   * resource the ones its own capabilities name.
   */
  function Answered(v: Vocabulary, typ: string): set<string> {
    if typ in v.scopes then ActionsOf(v)
    else if typ in v.resources then v.resources[typ]
    else {}
  }

  function RuleOf(v: Vocabulary, typ: string, action: string): Expr {
    if typ in v.scopes then RuleBody(action, false, |v.scopes| > 1) else RuleBody(action, true, |v.scopes| > 0)
  }

  function TypeDefOf(v: Vocabulary, typ: string): TypeDef {
    TypeDef(typ,
            map rel | rel in Carried(v, typ) :: TargetsOf(v, rel),
            map a | a in Answered(v, typ) :: RuleOf(v, typ, a))
  }

  function TypeNames(v: Vocabulary): set<string> {
    STRUCTURAL + (set kind | kind in v.scopes) + v.resources.Keys
  }

  function RelationNames(v: Vocabulary): set<string> {
    {"member_of", "holder"}
    + (if ResourceTypes(v) != {} && ActionsOf(v) != {} then {"owner"} else {})
    + (if Nests(v) then {"parent"} else {})
    + GrantNames(ActionsOf(v))
    + (if ActionsOf(v) != {} then {CAN_ALL} else {})
  }

  function RelationDefOf(rel: string): RelationDef {
    RelationDef(rel, rel == "member_of", if IsGrant(rel) then WildcardBoth else WildcardNone)
  }

  ghost function SchemaOf(v: Vocabulary): Schema {
    LessIsTotal();
    Schema(
      "org:" + v.organisation,
      Listing(Less, ActionsOf(v)),
      map rel | rel in RelationNames(v) :: RelationDefOf(rel),
      map typ | typ in TypeNames(v) :: TypeDefOf(v, typ))
  }

  /** A vocabulary the generator is given: usable names, distinct scopes, no clash with its own. */
  predicate GoodVocabulary(v: Vocabulary) {
    && (forall i :: 0 <= i < |v.scopes| ==> Text.ValidIdent(v.scopes[i]) && v.scopes[i] !in STRUCTURAL)
    && (forall i, j :: 0 <= i < j < |v.scopes| ==> v.scopes[i] != v.scopes[j])
    && (forall r :: r in v.resources ==> Text.ValidIdent(r) && r !in STRUCTURAL && v.resources[r] != {})
    && (forall a :: a in ActionsOf(v) ==> Text.ValidIdent(a) && a != "all")
  }

  // ---- The names of the schema ----

  lemma CanIdent(a: string)
    ensures IsGrant(Can(a))
    ensures Text.ValidIdent(a) ==> Text.ValidIdent(Can(a))
  {
    var rel := Can(a);
    assert rel[..4] == "can_";
    assert rel[0] == 'c' && rel[1] == 'a' && rel[2] == 'n' && rel[3] == '_';
    forall i | 0 <= i < |rel| && Text.ValidIdent(a) ensures Text.IdentChar(rel[i], i == 0) {
      if i >= 4 {
        assert rel[i] == a[i - 4];
      }
    }
  }

  lemma FixedNamesAreIdents()
    ensures Text.ValidIdent("member_of") && Text.ValidIdent("holder") && Text.ValidIdent("owner")
    ensures Text.ValidIdent("parent") && Text.ValidIdent(CAN_ALL)
    ensures forall typ :: typ in STRUCTURAL ==> Text.ValidIdent(typ)
  {
  }

  lemma RelationIsIdent(v: Vocabulary, rel: string)
    requires GoodVocabulary(v) && rel in RelationNames(v)
    ensures Text.ValidIdent(rel)
  {
    FixedNamesAreIdents();
    if rel in GrantNames(ActionsOf(v)) {
      var a :| a in ActionsOf(v) && rel == Can(a);
      CanIdent(a);
    }
  }

  lemma TypeIsIdent(v: Vocabulary, typ: string)
    requires GoodVocabulary(v) && typ in TypeNames(v)
    ensures Text.ValidIdent(typ)
  {
    FixedNamesAreIdents();
  }

  /** What the schema declares under a name. */
  lemma SchemaSays(v: Vocabulary)
    ensures SchemaOf(v).types.Keys == TypeNames(v) && SchemaOf(v).relations.Keys == RelationNames(v)
    ensures forall typ :: typ in TypeNames(v) ==> SchemaOf(v).types[typ] == TypeDefOf(v, typ)
    ensures forall rel :: rel in RelationNames(v) ==> SchemaOf(v).relations[rel] == RelationDefOf(rel)
  {
  }

  lemma StructuralTypes(v: Vocabulary)
    requires GoodVocabulary(v)
    ensures Carried(v, "group") == {"member_of"} && Carried(v, "role") == {"holder"}
    ensures STRUCTURAL <= TypeNames(v) && "member_of" in RelationNames(v) && "holder" in RelationNames(v)
  {
    assert "group" in STRUCTURAL && "role" in STRUCTURAL;
  }

  /** Every relation a type carries is declared. */
  lemma CarriedAreDeclared(v: Vocabulary, typ: string)
    requires GoodVocabulary(v)
    ensures Carried(v, typ) <= RelationNames(v)
  {
    if typ in v.resources && typ !in v.scopes {
      assert typ in ResourceTypes(v);
      var a :| a in v.resources[typ];
      assert a in ActionsOf(v);
      forall rel | rel in GrantNames(v.resources[typ]) ensures rel in GrantNames(ActionsOf(v)) {
        var b :| b in v.resources[typ] && rel == Can(b);
        assert b in ActionsOf(v);
      }
    } else if typ in v.scopes && |v.scopes| > 1 {
      assert Nests(v);
    }
  }

  // ---- The schema validates ----

  /** A target whose type is declared and whose relation that type carries is valid. */
  lemma TargetValid(v: Vocabulary, spec: TargetSpec)
    requires GoodVocabulary(v)
    requires spec.typ in TypeNames(v)
    requires spec.relation != "" ==> spec.relation in Carried(v, spec.typ)
    ensures ValidTarget(SchemaOf(v), spec)
  {
    SchemaSays(v);
    CarriedAreDeclared(v, spec.typ);
  }

  ghost predicate AllTargetsValid(v: Vocabulary, specs: seq<TargetSpec>) {
    specs != [] && forall spec :: spec in specs ==> ValidTarget(SchemaOf(v), spec)
  }

  lemma FixedTargetsValid(v: Vocabulary)
    requires GoodVocabulary(v)
    ensures AllTargetsValid(v, OWNERS) && AllTargetsValid(v, MEMBERS) && AllTargetsValid(v, GRANTEES)
  {
    StructuralTypes(v);
    TargetValid(v, TargetSpec("app_user", ""));
    TargetValid(v, TargetSpec("group", "member_of"));
    TargetValid(v, TargetSpec("role", "holder"));
  }

  lemma ParentTargetsValid(v: Vocabulary)
    requires GoodVocabulary(v) && v.scopes != []
    ensures AllTargetsValid(v, Parents(v))
  {
    forall spec | spec in Parents(v) ensures ValidTarget(SchemaOf(v), spec) {
      assert spec.typ in v.scopes;
      TargetValid(v, spec);
    }
  }

  lemma FourTargetLists(v: Vocabulary, rel: string)
    ensures var specs := TargetsOf(v, rel);
            (specs == Parents(v) && rel == "parent") || specs == OWNERS || specs == GRANTEES || specs == MEMBERS
  {
  }

  lemma TargetsValid(v: Vocabulary, rel: string)
    requires GoodVocabulary(v) && (rel == "parent" ==> v.scopes != [])
    ensures AllTargetsValid(v, TargetsOf(v, rel))
  {
    FourTargetLists(v, rel);
    FixedTargetsValid(v);
    if v.scopes != [] {
      ParentTargetsValid(v);
    }
  }

  lemma ParentNeedsScopes(v: Vocabulary, typ: string)
    requires "parent" in Carried(v, typ)
    ensures v.scopes != []
  {
    forall a: string ensures Can(a)[0] == 'c' {
    }
  }

  lemma ParentIsNoGrant(v: Vocabulary)
    ensures "parent" !in GrantNames(ActionsOf(v)) && "owner" !in GrantNames(ActionsOf(v))
  {
    forall a: string ensures Can(a)[0] == 'c' {
    }
  }

  lemma RuleValid(v: Vocabulary, typ: string, a: string)
    requires GoodVocabulary(v) && a in Answered(v, typ)
    ensures ValidExpr(SchemaOf(v), TypeDefOf(v, typ), RuleOf(v, typ, a))
    ensures CycleFree(TypeDefOf(v, typ), a, {})
  {
    var t := TypeDefOf(v, typ);
    AnsweredAreActions(v, typ, a);
    RuleRelationsCarried(v, typ, a);
    ParentsAnswer(v, typ, a);
    BodyValid(SchemaOf(v), t, a, typ !in v.scopes, if typ in v.scopes then |v.scopes| > 1 else |v.scopes| > 0);
    BodyCycleFree(t, a, typ !in v.scopes, if typ in v.scopes then |v.scopes| > 1 else |v.scopes| > 0);
  }

  /** Every relation a rule mentions is carried. */
  lemma RuleRelationsCarried(v: Vocabulary, typ: string, a: string)
    requires a in Answered(v, typ)
    ensures Can(a) in Carried(v, typ) && CAN_ALL in Carried(v, typ)
    ensures typ !in v.scopes ==> "owner" in Carried(v, typ)
    ensures (if typ in v.scopes then |v.scopes| > 1 else |v.scopes| > 0) ==> "parent" in Carried(v, typ)
  {
    AnsweredAreActions(v, typ, a);
  }

  /** Every scope kind answers every action, so every arrow over parent is answered. */
  lemma ParentsAnswer(v: Vocabulary, typ: string, a: string)
    requires a in Answered(v, typ)
    ensures forall spec :: spec in Parents(v) ==> Answers(SchemaOf(v), spec.typ, a)
  {
    SchemaSays(v);
    AnsweredAreActions(v, typ, a);
    forall spec | spec in Parents(v) ensures Answers(SchemaOf(v), spec.typ, a) {
      assert spec.typ in v.scopes && spec.typ in TypeNames(v);
    }
  }

  lemma BodyValid(schema: Schema, t: TypeDef, a: string, owned: bool, nested: bool)
    requires Can(a) in t.relations && CAN_ALL in t.relations
    requires owned ==> "owner" in t.relations
    requires nested ==> "parent" in t.relations && forall spec :: spec in t.relations["parent"] ==> Answers(schema, spec.typ, a)
    ensures ValidExpr(schema, t, RuleBody(a, owned, nested))
  {
  }

  lemma BodyCycleFree(t: TypeDef, a: string, owned: bool, nested: bool)
    requires a in t.rules && t.rules[a] == RuleBody(a, owned, nested)
    ensures CycleFree(t, a, {})
  {
    forall term | term in RuleBody(a, owned, nested).terms ensures ExprCycleFree(t, term, {} + {a}) {
    }
    assert ExprCycleFree(t, t.rules[a], {} + {a});
  }

  lemma AnsweredAreActions(v: Vocabulary, typ: string, a: string)
    requires a in Answered(v, typ)
    ensures a in ActionsOf(v) && (typ in v.scopes || typ in v.resources)
    ensures Can(a) in GrantNames(Answered(v, typ))
  {
  }

  lemma HasActions(v: Vocabulary, a: string)
    ensures SchemaOf(v).HasAction(a) <==> a in ActionsOf(v)
  {
    LessIsTotal();
    assert a in SchemaOf(v).actions <==> a in Elements(SchemaOf(v).actions);
  }

  lemma MerchantTypeValid(v: Vocabulary, typ: string)
    requires GoodVocabulary(v) && typ in TypeNames(v)
    ensures ValidRelations(SchemaOf(v), TypeDefOf(v, typ)) && ValidRules(SchemaOf(v), TypeDefOf(v, typ))
  {
    SchemaSays(v);
    CarriedAreDeclared(v, typ);
    forall rel | rel in Carried(v, typ)
      ensures AllTargetsValid(v, TargetsOf(v, rel))
    {
      if rel == "parent" {
        ParentNeedsScopes(v, typ);
      }
      TargetsValid(v, rel);
    }
    forall a | a in Answered(v, typ)
      ensures SchemaOf(v).HasAction(a) && ValidExpr(SchemaOf(v), TypeDefOf(v, typ), RuleOf(v, typ, a)) && CycleFree(TypeDefOf(v, typ), a, {})
    {
      AnsweredAreActions(v, typ, a);
      HasActions(v, a);
      RuleValid(v, typ, a);
    }
  }

  lemma ActionListValid(v: Vocabulary)
    requires GoodVocabulary(v)
    ensures var actions := SchemaOf(v).actions;
            && (forall i :: 0 <= i < |actions| ==> Text.ValidIdent(actions[i]))
            && (forall i, j :: 0 <= i < j < |actions| ==> actions[i] != actions[j])
  {
    LessIsTotal();
    var actions := SchemaOf(v).actions;
    forall i | 0 <= i < |actions| ensures Text.ValidIdent(actions[i]) {
      assert actions[i] in Elements(actions);
    }
    forall i, j | 0 <= i < j < |actions| ensures actions[i] != actions[j] {
      assert Less(actions[i], actions[j]);
    }
  }

  lemma DeclarationsValid(v: Vocabulary)
    requires GoodVocabulary(v)
    ensures var schema := SchemaOf(v);
            && !Text.Blank(schema.namespace)
            && forall rel :: rel in schema.relations ==> Text.ValidIdent(rel) && schema.relations[rel].name == rel
  {
    var schema := SchemaOf(v);
    assert schema.namespace[0] == 'o';
    SchemaSays(v);
    forall rel | rel in schema.relations ensures Text.ValidIdent(rel) && schema.relations[rel].name == rel {
      RelationIsIdent(v, rel);
    }
  }

  lemma TypesValid(v: Vocabulary, typ: string)
    requires GoodVocabulary(v) && typ in SchemaOf(v).types
    ensures var schema := SchemaOf(v);
            && Text.ValidIdent(typ) && schema.types[typ].name == typ
            && ValidRelations(schema, schema.types[typ]) && ValidRules(schema, schema.types[typ])
  {
    SchemaSays(v);
    TypeIsIdent(v, typ);
    MerchantTypeValid(v, typ);
  }

  /** Every good vocabulary generates a schema that validates. */
  lemma MerchantSchemaValidates(v: Vocabulary)
    requires GoodVocabulary(v)
    ensures ValidSchema(SchemaOf(v))
  {
    ActionListValid(v);
    DeclarationsValid(v);
    forall typ | typ in SchemaOf(v).types
      ensures var schema := SchemaOf(v);
              && Text.ValidIdent(typ) && schema.types[typ].name == typ
              && ValidRelations(schema, schema.types[typ]) && ValidRules(schema, schema.types[typ])
    {
      TypesValid(v, typ);
    }
  }

  // ---- Nothing is inert ----

  /** The relations an expression evaluates on their own (collectBare). */
  function CollectBare(schema: Schema, t: TypeDef, expr: Expr): set<string> {
    match expr
    case RelationTerm(rel) => {rel}
    case ArrowTerm(rel, target) =>
      if rel in t.relations && exists spec :: spec in t.relations[rel] && spec.typ in schema.types && !schema.HasRule(spec.typ, target)
      then {target} else {}
    case Union(terms) => set term, rel | term in terms && rel in CollectBare(schema, t, term) :: rel
    case Intersect(terms) => set term, rel | term in terms && rel in CollectBare(schema, t, term) :: rel
    case Exclude(base, subtract) => CollectBare(schema, t, base) + CollectBare(schema, t, subtract)
    case _ => {}
  }

  /** The relations ever evaluated on their own (bareRelations). */
  function BareRelations(schema: Schema): set<string> {
    (set typ, r, spec | typ in schema.types && r in schema.types[typ].relations && spec in schema.types[typ].relations[r] && spec.relation != ""
       :: spec.relation)
    + (set typ, a, rel | typ in schema.types && a in schema.types[typ].rules && rel in CollectBare(schema, schema.types[typ], schema.types[typ].rules[a])
         :: rel)
  }

  /** Warnings returns nothing. */
  predicate NoWarnings(schema: Schema) {
    && (forall rel :: rel in schema.relations ==>
          && (exists typ :: typ in schema.types && rel in schema.types[typ].relations)
          && (schema.relations[rel].transitive ==> rel in BareRelations(schema)))
    && (forall a :: a in schema.actions ==> exists typ :: typ in schema.types && a in schema.types[typ].rules)
  }

  lemma EveryRelationCarried(v: Vocabulary, rel: string) returns (typ: string)
    requires GoodVocabulary(v) && rel in RelationNames(v)
    ensures typ in TypeNames(v) && rel in Carried(v, typ)
  {
    if rel == "member_of" {
      typ := "group";
    } else if rel == "holder" {
      typ := "role";
    } else if rel == "parent" {
      ParentIsNoGrant(v);
      if |v.scopes| > 1 {
        typ := v.scopes[0];
      } else {
        typ :| typ in ResourceTypes(v);
      }
    } else if rel == "owner" {
      ParentIsNoGrant(v);
      typ :| typ in ResourceTypes(v);
    } else {
      var a :| a in ActionsOf(v) && (rel == Can(a) || rel == CAN_ALL);
      typ :| typ in v.resources && a in v.resources[typ];
      assert Can(a) in GrantNames(Answered(v, typ));
    }
  }

  lemma MembershipIsBare(v: Vocabulary)
    requires GoodVocabulary(v)
    ensures "member_of" in BareRelations(SchemaOf(v))
  {
    SchemaSays(v);
    StructuralTypes(v);
    var t := SchemaOf(v).types["group"];
    assert t == TypeDefOf(v, "group") && "member_of" in t.relations;
    assert !IsGrant("member_of") by {
      assert "member_of"[..4][0] == 'm';
    }
    assert t.relations["member_of"] == MEMBERS;
    assert MEMBERS[1].relation == "member_of" && MEMBERS[1] in MEMBERS;
  }

  lemma RelationNotInert(v: Vocabulary, rel: string)
    requires GoodVocabulary(v) && rel in RelationNames(v)
    ensures exists typ :: typ in SchemaOf(v).types && rel in SchemaOf(v).types[typ].relations
    ensures SchemaOf(v).relations[rel].transitive ==> rel in BareRelations(SchemaOf(v))
  {
    SchemaSays(v);
    var typ := EveryRelationCarried(v, rel);
    assert rel in SchemaOf(v).types[typ].relations;
    MembershipIsBare(v);
  }

  lemma ActionNotInert(v: Vocabulary, a: string)
    requires GoodVocabulary(v) && SchemaOf(v).HasAction(a)
    ensures exists typ :: typ in SchemaOf(v).types && a in SchemaOf(v).types[typ].rules
  {
    SchemaSays(v);
    HasActions(v, a);
    var r :| r in v.resources && a in v.resources[r];
    assert a in Answered(v, r) && r in TypeNames(v);
    assert SchemaOf(v).HasRule(r, a);
  }

  /** A generated schema declares nothing the engine ignores. */
  lemma MerchantSchemaHasNoWarnings(v: Vocabulary)
    requires GoodVocabulary(v)
    ensures NoWarnings(SchemaOf(v))
  {
    var schema := SchemaOf(v);
    forall rel | rel in schema.relations
      ensures exists typ :: typ in schema.types && rel in schema.types[typ].relations
      ensures schema.relations[rel].transitive ==> rel in BareRelations(schema)
    {
      SchemaSays(v);
      RelationNotInert(v, rel);
    }
    forall a | a in schema.actions ensures exists typ :: typ in schema.types && a in schema.types[typ].rules {
      ActionNotInert(v, a);
    }
  }

  // ---- The namespace's name plays no part in either ----

  lemma {:induction false} CollectBareRenamed(schema: Schema, namespace: string, t: TypeDef, expr: Expr)
    ensures CollectBare(schema.(namespace := namespace), t, expr) == CollectBare(schema, t, expr)
    decreases expr
  {
    if expr.Union? || expr.Intersect? {
      forall term | term in expr.terms ensures CollectBare(schema.(namespace := namespace), t, term) == CollectBare(schema, t, term) {
        CollectBareRenamed(schema, namespace, t, term);
      }
    } else if expr.Exclude? {
      CollectBareRenamed(schema, namespace, t, expr.base);
      CollectBareRenamed(schema, namespace, t, expr.subtract);
    }
  }

  lemma RenamedHasNoWarnings(schema: Schema, namespace: string)
    requires NoWarnings(schema)
    ensures NoWarnings(schema.(namespace := namespace))
  {
    var renamed := schema.(namespace := namespace);
    forall typ, a | typ in schema.types && a in schema.types[typ].rules
      ensures CollectBare(renamed, schema.types[typ], schema.types[typ].rules[a]) == CollectBare(schema, schema.types[typ], schema.types[typ].rules[a])
    {
      CollectBareRenamed(schema, namespace, schema.types[typ], schema.types[typ].rules[a]);
    }
    assert BareRelations(renamed) == BareRelations(schema);
  }
}

/**
 * The text a merchant's vocabulary is written as, and the proof that the schema
 * parser reads it back as the schema it stands for
 * (internal/accessmodel/merchant.go:101-243).
 */
module MerchantText {
  import opened Wrappers
  import opened Schemas
  import opened Sorting
  import opened Text
  import opened Spines
  import opened Reading
  import opened SchemaText
  import opened SchemaLines
  import opened RelationLines
  import opened Merchant
  import opened Validation
  import RuleText

  // ---- Tables built name by name ----

  lemma DistinctAppend(a: seq<string>, b: seq<string>)
    requires Distinct(a) && Distinct(b) && forall n :: n in a ==> n !in b
    ensures Distinct(a + b)
  {
    forall i, j | 0 <= i < j < |a + b| ensures (a + b)[i] != (a + b)[j] {
      if i < |a| <= j {
        assert a[i] in a && b[j - |a|] in b;
      }
    }
  }

  lemma DistinctHead(names: seq<string>)
    requires Distinct(names) && names != []
    ensures Distinct(names[1..]) && names[0] !in names[1..]
  {
  }

  /** A table with the named entries set in order. */
  function Put<V>(m: map<string, V>, names: seq<string>, f: string -> V): map<string, V>
    decreases |names|
  {
    if names == [] then m else Put(m[names[0] := f(names[0])], names[1..], f)
  }

  /** The table of a function on some names. */
  function Table<V>(names: set<string>, f: string -> V): map<string, V> {
    map n | n in names :: f(n)
  }

  lemma {:induction false} PutIs<V>(m: map<string, V>, names: seq<string>, f: string -> V)
    ensures Put(m, names, f).Keys == m.Keys + Elements(names)
    ensures forall n :: n in Put(m, names, f) ==> Put(m, names, f)[n] == if n in names then f(n) else m[n]
    decreases |names|
  {
    if names != [] {
      PutIs(m[names[0] := f(names[0])], names[1..], f);
      assert forall n :: n in names <==> n == names[0] || n in names[1..];
    }
  }

  lemma PutMakesTable<V>(names: seq<string>, keys: set<string>, f: string -> V)
    requires Elements(names) == keys
    ensures Put(map[], names, f) == Table(keys, f)
  {
    PutIs(map[], names, f);
    assert forall n :: n in names <==> n in Elements(names);
  }

  function LinesOf(names: seq<string>, f: string -> string): seq<string> {
    if names == [] then [] else [f(names[0])] + LinesOf(names[1..], f)
  }

  // ---- The namespace's relations ----

  function Pad(rel: string): string {
    if rel == "member_of" || IsGrant(rel) then " " else if rel == "owner" then "     " else "    "
  }

  function Mods(rel: string): string {
    if rel == "member_of" then "transitive"
    else if IsGrant(rel) then "direct" + ", " + "wildcard both"
    else "direct"
  }

  function DeclarationLine(rel: string): string {
    LineText("", "relation", DeclarationText(rel, Pad(rel), Mods(rel)))
  }

  lemma ModifierTexts()
    ensures Trimmed("direct") && ',' !in "direct"
    ensures Trimmed("transitive") && ',' !in "transitive"
    ensures Trimmed("wildcard both") && ',' !in "wildcard both"
  {
  }

  lemma WildcardBothRead(def: RelationDef)
    ensures Modify(def, "wildcard both") == Ok(def.(wildcard := WildcardBoth))
  {
    assert "wildcard both" == PositionText(WildcardBoth);
    PositionModifier(def, WildcardBoth);
  }

  lemma PlainModsRead(rel: string, mods: string)
    requires mods == "direct" || mods == "transitive"
    ensures ModifyAll(RelationDef(rel, false, WildcardNone), Items(SplitOn(" " + mods, ',')))
         == Ok(RelationDef(rel, mods == "transitive", WildcardNone))
  {
    var def := RelationDef(rel, false, WildcardNone);
    ModifierTexts();
    FlagModifier(def, mods == "transitive");
    OneModifier(def, mods, RelationDef(rel, mods == "transitive", WildcardNone));
  }

  lemma WildcardModsRead(rel: string, first: string, second: string)
    requires first == "direct" && second == "wildcard both"
    ensures ModifyAll(RelationDef(rel, false, WildcardNone), Items(SplitOn(" " + (first + ", " + second), ',')))
         == Ok(RelationDef(rel, false, WildcardBoth))
  {
    var def := RelationDef(rel, false, WildcardNone);
    ModifierTexts();
    FlagModifier(def, false);
    WildcardBothRead(def);
    TwoModifiers(def, first, second, def, RelationDef(rel, false, WildcardBoth));
  }

  lemma ModsRead(rel: string)
    ensures ModifyAll(RelationDef(rel, false, WildcardNone), Items(SplitOn(" " + Mods(rel), ','))) == Ok(RelationDefOf(rel))
  {
    if rel != "member_of" && IsGrant(rel) {
      WildcardModsRead(rel, "direct", "wildcard both");
    } else {
      assert rel == "member_of" ==> rel[0] == 'm' && "can_"[0] == 'c';
      PlainModsRead(rel, Mods(rel));
    }
  }

  lemma ModsShape(rel: string)
    ensures Trimmed(Mods(rel)) && Clean(Mods(rel)) && '-' !in Mods(rel)
    ensures Blank(Pad(rel)) && Clean(Pad(rel)) && ':' !in Pad(rel) && '-' !in Pad(rel)
  {
  }

  lemma {:induction false} DeclarationsRead(st: ParserState, names: seq<string>)
    requires st.Sound() && Distinct(names)
    requires forall n :: n in names ==> ValidIdent(n) && n !in st.schema.relations
    ensures Leads(st, LinesOf(names, DeclarationLine),
                  st.(schema := st.schema.(relations := Put(st.schema.relations, names, RelationDefOf))))
    decreases |names|
  {
    if names == [] {
      LeadsNowhere(st);
    } else {
      var rel := names[0];
      var next := st.(schema := st.schema.(relations := st.schema.relations[rel := RelationDefOf(rel)]));
      ModsRead(rel);
      ModsShape(rel);
      DeclarationRead(st, rel, Pad(rel), Mods(rel), RelationDefOf(rel));
      DistinctHead(names);
      DeclarationsRead(next, names[1..]);
      LeadsOn(st, [DeclarationLine(rel)], next, LinesOf(names[1..], DeclarationLine),
              next.(schema := next.schema.(relations := Put(next.schema.relations, names[1..], RelationDefOf))));
    }
  }

  // ---- The relations of a type ----

  /** Only the last of the blocks put in place of the open one counts. */
  lemma LastBlockCounts(st: ParserState, t: TypeDef, u: TypeDef)
    requires st.Sound() && st.current.Some?
    ensures st.WithBlock(t).Sound() && st.WithBlock(t).Block() == t
    ensures st.WithBlock(t).WithBlock(u) == st.WithBlock(u)
    ensures st.WithBlock(st.Block()) == st
  {
    assert st.schema.types[st.current.value := t][st.current.value := u] == st.schema.types[st.current.value := u];
    assert st.schema.types[st.current.value := st.Block()] == st.schema.types;
  }

  function TargetsIn(v: Vocabulary): string -> seq<TargetSpec> {
    rel => TargetsOf(v, rel)
  }

  function RelationLine(v: Vocabulary, rel: string): string {
    LineText("  ", "relation", RelationText(rel, PrintTargets(TargetsOf(v, rel))))
  }

  function RelationLineIn(v: Vocabulary): string -> string {
    rel => RelationLine(v, rel)
  }

  lemma {:induction false} RelationsRead(v: Vocabulary, st: ParserState, names: seq<string>)
    requires st.Sound() && st.current.Some? && Distinct(names)
    requires forall n :: n in names ==> ValidIdent(n) && n !in st.Block().relations && TargetsOf(v, n) != []
    requires forall n, spec :: n in names && spec in TargetsOf(v, n) ==> NamedTarget(spec)
    ensures Leads(st, LinesOf(names, RelationLineIn(v)),
                  st.WithBlock(st.Block().(relations := Put(st.Block().relations, names, TargetsIn(v)))))
    decreases |names|
  {
    var t, f := st.Block(), TargetsIn(v);
    var end := t.(relations := Put(t.relations, names, f));
    LastBlockCounts(st, t, end);
    if names == [] {
      LeadsNowhere(st);
    } else {
      var rel := names[0];
      var mid := t.(relations := t.relations[rel := f(rel)]);
      LastBlockCounts(st, mid, end);
      TypeRelationRead(st, rel, TargetsOf(v, rel));
      DistinctHead(names);
      RelationsRead(v, st.WithBlock(mid), names[1..]);
      assert mid.(relations := Put(mid.relations, names[1..], f)) == end;
      LeadsOn(st, [RelationLine(v, rel)], st.WithBlock(mid), LinesOf(names[1..], RelationLineIn(v)), st.WithBlock(end));
    }
  }

  // ---- The rules of a type ----

  /** A body with one more term. */
  function Plus(text: string, term: string): string {
    (text + " ") + ['+'] + (" " + term)
  }

  function BodyText(a: string, owned: bool, nested: bool): string {
    var grants := Plus(Can(a), CAN_ALL);
    var own := if owned then Plus(grants, "owner") else grants;
    if nested then Plus(own, "parent" + "->" + a) else own
  }

  /** The body as parsed, before its words are resolved. */
  function RawBody(a: string, owned: bool, nested: bool): Expr {
    Union([IdentTerm(Can(a)), IdentTerm(CAN_ALL)]
          + (if owned then [IdentTerm("owner")] else [])
          + (if nested then [ArrowTerm("parent", a)] else []))
  }

  lemma NamesArePlain(a: string)
    requires ValidIdent(a)
    ensures Plain(Can(a)) && Plain(CAN_ALL) && Plain("owner") && Plain("parent") && Plain(a)
    ensures Clean(Can(a)) && Clean(CAN_ALL) && Clean("owner") && Clean("parent") && Clean(a)
  {
    CanIdent(a);
    IdentIsClean(a);
    IdentIsClean(Can(a));
    FixedNamesAreIdents();
    IdentIsClean(CAN_ALL);
    IdentIsClean("owner");
    IdentIsClean("parent");
  }

  lemma GrantsRead(t: TypeDef, a: string)
    requires ValidIdent(a) && Can(a) in t.relations && CAN_ALL in t.relations
    ensures Reads(t, Plus(Can(a), CAN_ALL), RawBody(a, false, false), RuleBody(a, false, false))
  {
    NamesArePlain(a);
    ReadsWord(t, Can(a));
    ReadsMore(t, Can(a), IdentTerm(Can(a)), RelationTerm(Can(a)), '+', IdentTerm(CAN_ALL), RelationTerm(CAN_ALL));
    assert RawBody(a, false, false) == Union([IdentTerm(Can(a)), IdentTerm(CAN_ALL)]);
    assert RuleBody(a, false, false) == Union([RelationTerm(Can(a)), RelationTerm(CAN_ALL)]);
  }

  lemma OwnedReads(t: TypeDef, a: string, owned: bool)
    requires ValidIdent(a) && Can(a) in t.relations && CAN_ALL in t.relations
    requires owned ==> "owner" in t.relations
    ensures Reads(t, BodyText(a, owned, false), RawBody(a, owned, false), RuleBody(a, owned, false))
  {
    GrantsRead(t, a);
    if owned {
      NamesArePlain(a);
      ReadsMore(t, Plus(Can(a), CAN_ALL), RawBody(a, false, false), RuleBody(a, false, false), '+', IdentTerm("owner"), RelationTerm("owner"));
      assert RawBody(a, true, false).terms == RawBody(a, false, false).terms + [IdentTerm("owner")];
      assert RuleBody(a, true, false).terms == RuleBody(a, false, false).terms + [RelationTerm("owner")];
    }
  }

  /** A generated body parses and resolves to the rule it stands for. */
  lemma BodyReads(t: TypeDef, a: string, owned: bool, nested: bool)
    requires ValidIdent(a) && Can(a) in t.relations && CAN_ALL in t.relations
    requires owned ==> "owner" in t.relations
    ensures Reads(t, BodyText(a, owned, nested), RawBody(a, owned, nested), RuleBody(a, owned, nested))
  {
    OwnedReads(t, a, owned);
    if nested {
      NamesArePlain(a);
      var arrow := ArrowTerm("parent", a);
      ReadsMore(t, BodyText(a, owned, false), RawBody(a, owned, false), RuleBody(a, owned, false), '+', arrow, arrow);
      assert RawBody(a, owned, true).terms == RawBody(a, owned, false).terms + [arrow];
      assert RuleBody(a, owned, true).terms == RuleBody(a, owned, false).terms + [arrow];
    }
  }

  lemma PlusShape(text: string, term: string)
    requires Trimmed(text) && Clean(text) && Trimmed(term) && Clean(term)
    ensures Trimmed(Plus(text, term)) && Clean(Plus(text, term))
  {
    CleanConcat(text, " ");
    CleanConcat(text + " ", ['+']);
    CleanConcat(" ", term);
    CleanConcat((text + " ") + ['+'], " " + term);
  }

  lemma BodyShape(a: string, owned: bool, nested: bool)
    requires ValidIdent(a)
    ensures Trimmed(BodyText(a, owned, nested)) && Clean(BodyText(a, owned, nested))
  {
    NamesArePlain(a);
    var grants := Plus(Can(a), CAN_ALL);
    PlusShape(Can(a), CAN_ALL);
    PlusShape(grants, "owner");
    CleanConcat("parent", "->");
    CleanConcat("parent" + "->", a);
    PlusShape(if owned then Plus(grants, "owner") else grants, "parent" + "->" + a);
  }

  function RuleLine(a: string, owned: bool, nested: bool): string {
    LineText("  ", "rule", RuleAsText(a, BodyText(a, owned, nested)))
  }

  function RawIn(owned: bool, nested: bool): string -> Expr {
    a => RawBody(a, owned, nested)
  }

  function RuleLineIn(owned: bool, nested: bool): string -> string {
    a => RuleLine(a, owned, nested)
  }

  /** The relations a body over these grants mentions are all there. */
  predicate Mentioned(relations: set<string>, a: string, owned: bool, nested: bool) {
    Can(a) in relations && CAN_ALL in relations && (owned ==> "owner" in relations) && (nested ==> "parent" in relations)
  }

  lemma {:induction false} RulesRead(owned: bool, nested: bool, st: ParserState, actions: seq<string>)
    requires st.Sound() && st.current.Some? && Distinct(actions)
    requires forall a :: a in actions ==>
      ValidIdent(a) && a !in st.Block().rules && Mentioned(st.Block().relations.Keys, a, owned, nested)
    ensures Leads(st, LinesOf(actions, RuleLineIn(owned, nested)),
                  st.WithBlock(st.Block().(rules := Put(st.Block().rules, actions, RawIn(owned, nested)))))
    decreases |actions|
  {
    var t, f := st.Block(), RawIn(owned, nested);
    var end := t.(rules := Put(t.rules, actions, f));
    LastBlockCounts(st, t, end);
    if actions == [] {
      LeadsNowhere(st);
    } else {
      var a := actions[0];
      var mid := t.(rules := t.rules[a := f(a)]);
      LastBlockCounts(st, mid, end);
      RuleLineReads(owned, nested, st, a);
      DistinctHead(actions);
      RulesRead(owned, nested, st.WithBlock(mid), actions[1..]);
      assert mid.(rules := Put(mid.rules, actions[1..], f)) == end;
      LeadsOn(st, [RuleLine(a, owned, nested)], st.WithBlock(mid), LinesOf(actions[1..], RuleLineIn(owned, nested)), st.WithBlock(end));
    }
  }

  lemma RuleLineReads(owned: bool, nested: bool, st: ParserState, a: string)
    requires st.Sound() && st.current.Some? && Mentioned(st.Block().relations.Keys, a, owned, nested)
    requires ValidIdent(a) && a !in st.Block().rules
    ensures Leads(st, [RuleLine(a, owned, nested)], st.WithBlock(st.Block().(rules := st.Block().rules[a := RawBody(a, owned, nested)])))
  {
    var body, raw := BodyText(a, owned, nested), RawBody(a, owned, nested);
    BodyReads(st.Block(), a, owned, nested);
    ReadsParse(st.Block(), body, raw, RuleBody(a, owned, nested));
    BodyShape(a, owned, nested);
    RuleRead(st, a, body, raw);
  }

  predicate Owned(v: Vocabulary, typ: string) {
    typ !in v.scopes
  }

  predicate Nested(v: Vocabulary, typ: string) {
    if typ in v.scopes then |v.scopes| > 1 else |v.scopes| > 0
  }

  lemma RuleOfIsBody(v: Vocabulary, typ: string, a: string)
    ensures RuleOf(v, typ, a) == RuleBody(a, Owned(v, typ), Nested(v, typ))
  {
  }

  // ---- A type block ----

  function Cans(actions: seq<string>): (names: seq<string>)
    ensures |names| == |actions| && forall i :: 0 <= i < |names| ==> names[i] == Can(actions[i])
  {
    seq(|actions|, i requires 0 <= i < |actions| => Can(actions[i]))
  }

  ghost function AnsweredList(v: Vocabulary, typ: string): (xs: seq<string>)
    ensures Elements(xs) == Answered(v, typ) && Distinct(xs)
  {
    LessIsTotal();
    Listing(Less, Answered(v, typ))
  }

  /** The relations of a type in the order they are written. */
  ghost function CarriedList(v: Vocabulary, typ: string): seq<string> {
    if typ in v.scopes then
      (if |v.scopes| > 1 then ["parent"] else []) + Cans(AnsweredList(v, typ)) + (if ActionsOf(v) != {} then [CAN_ALL] else [])
    else if typ in v.resources then
      (if |v.scopes| > 0 then ["parent"] else []) + Cans(AnsweredList(v, typ)) + [CAN_ALL, "owner"]
    else if typ == "group" then ["member_of"]
    else if typ == "role" then ["holder"]
    else []
  }

  lemma CansList(actions: seq<string>)
    requires Distinct(actions) && "all" !in actions
    ensures Distinct(Cans(actions)) && Elements(Cans(actions)) == GrantNames(Elements(actions))
    ensures CAN_ALL !in Cans(actions) && "parent" !in Cans(actions) && "owner" !in Cans(actions)
  {
    var names := Cans(actions);
    forall i | 0 <= i < |names| ensures names[i][4..] == actions[i] && names[i][0] == 'c' {
    }
    assert CAN_ALL[4..] == "all";
    forall a | a in actions ensures Can(a) in names {
      var i :| 0 <= i < |actions| && actions[i] == a;
      assert names[i] == Can(a);
    }
  }

  lemma AnsweredNotAll(v: Vocabulary, typ: string)
    requires GoodVocabulary(v)
    ensures "all" !in AnsweredList(v, typ) && forall a :: a in AnsweredList(v, typ) ==> ValidIdent(a) && a in ActionsOf(v)
  {
    forall a | a in AnsweredList(v, typ) ensures ValidIdent(a) && a in ActionsOf(v) && a != "all" {
      assert a in Elements(AnsweredList(v, typ));
      AnsweredAreActions(v, typ, a);
    }
  }

  lemma JoinedDistinct(a: seq<string>, b: seq<string>, c: seq<string>)
    requires Distinct(a) && Distinct(b) && Distinct(c)
    requires forall n :: n in a ==> n !in b && n !in c
    requires forall n :: n in b ==> n !in c
    ensures Distinct(a + b + c) && Elements(a + b + c) == Elements(a) + Elements(b) + Elements(c)
  {
    DistinctAppend(a, b);
    DistinctAppend(a + b, c);
  }

  lemma CarriedListIs(v: Vocabulary, typ: string)
    requires GoodVocabulary(v)
    ensures Distinct(CarriedList(v, typ)) && Elements(CarriedList(v, typ)) == Carried(v, typ)
  {
    AnsweredNotAll(v, typ);
    CansList(AnsweredList(v, typ));
    if typ in v.scopes {
      JoinedDistinct(if |v.scopes| > 1 then ["parent"] else [], Cans(AnsweredList(v, typ)), if ActionsOf(v) != {} then [CAN_ALL] else []);
    } else if typ in v.resources {
      ResourceCarriedIs(v, typ);
    }
  }

  lemma ResourceCarriedIs(v: Vocabulary, typ: string)
    requires GoodVocabulary(v) && typ in v.resources && typ !in v.scopes
    ensures Distinct(CarriedList(v, typ)) && Elements(CarriedList(v, typ)) == Carried(v, typ)
  {
    AnsweredNotAll(v, typ);
    CansList(AnsweredList(v, typ));
    var last := [CAN_ALL, "owner"];
    assert last[0][0] == 'c' && last[1][0] == 'o' && "parent"[0] == 'p';
    JoinedDistinct(if |v.scopes| > 0 then ["parent"] else [], Cans(AnsweredList(v, typ)), last);
    assert Elements(last) == {CAN_ALL, "owner"};
  }

  ghost function TypeBlock(v: Vocabulary, typ: string): seq<string> {
    ["", LineText("", "type", typ)]
    + LinesOf(CarriedList(v, typ), RelationLineIn(v))
    + LinesOf(AnsweredList(v, typ), RuleLineIn(Owned(v, typ), Nested(v, typ)))
  }

  /** A type as parsed. */
  function RawType(v: Vocabulary, typ: string): TypeDef {
    BareType(v, typ).(rules := Table(Answered(v, typ), RawIn(Owned(v, typ), Nested(v, typ))))
  }

  /** The type before its rules. */
  function BareType(v: Vocabulary, typ: string): TypeDef {
    TypeDef(typ, Table(Carried(v, typ), TargetsIn(v)), map[])
  }

  lemma TargetsAreNamed(v: Vocabulary, rel: string)
    requires GoodVocabulary(v) && (rel == "parent" ==> v.scopes != [])
    ensures TargetsOf(v, rel) != [] && forall spec :: spec in TargetsOf(v, rel) ==> NamedTarget(spec)
  {
    FourTargetLists(v, rel);
    FixedNamesAreIdents();
    assert ValidIdent("app_user") && ValidIdent("group") && ValidIdent("role");
    if rel == "parent" {
      forall spec | spec in Parents(v) ensures NamedTarget(spec) {
        assert spec.typ in v.scopes;
      }
    }
  }

  lemma CarriedAreNamed(v: Vocabulary, typ: string, rel: string)
    requires GoodVocabulary(v) && rel in CarriedList(v, typ)
    ensures ValidIdent(rel) && TargetsOf(v, rel) != [] && forall spec :: spec in TargetsOf(v, rel) ==> NamedTarget(spec)
  {
    CarriedListIs(v, typ);
    assert rel in Elements(CarriedList(v, typ));
    CarriedAreDeclared(v, typ);
    RelationIsIdent(v, rel);
    if rel == "parent" {
      ParentNeedsScopes(v, typ);
    }
    TargetsAreNamed(v, rel);
  }

  /** What the relations of a block leave. */
  lemma BlockRelations(v: Vocabulary, typ: string, st: ParserState)
    requires GoodVocabulary(v) && st.Sound() && st.current == Some(typ)
    requires st.Block() == TypeDef(typ, map[], map[])
    ensures Leads(st, LinesOf(CarriedList(v, typ), RelationLineIn(v)), st.WithBlock(BareType(v, typ)))
  {
    var names := CarriedList(v, typ);
    CarriedListIs(v, typ);
    forall n | n in names
      ensures ValidIdent(n) && TargetsOf(v, n) != [] && forall spec :: spec in TargetsOf(v, n) ==> NamedTarget(spec)
    {
      CarriedAreNamed(v, typ, n);
    }
    RelationsRead(v, st, names);
    PutMakesTable(names, Carried(v, typ), TargetsIn(v));
  }

  lemma AnsweredMentioned(v: Vocabulary, typ: string)
    ensures forall a :: a in AnsweredList(v, typ) ==> Mentioned(Carried(v, typ), a, Owned(v, typ), Nested(v, typ))
  {
    forall a | a in AnsweredList(v, typ) ensures Mentioned(Carried(v, typ), a, Owned(v, typ), Nested(v, typ)) {
      assert a in Elements(AnsweredList(v, typ));
      RuleRelationsCarried(v, typ, a);
    }
  }

  lemma FillRules(owned: bool, nested: bool, st: ParserState, actions: seq<string>, keys: set<string>)
    requires st.Sound() && st.current.Some? && st.Block().rules == map[]
    requires Distinct(actions) && Elements(actions) == keys
    requires forall a :: a in actions ==> ValidIdent(a) && Mentioned(st.Block().relations.Keys, a, owned, nested)
    ensures Leads(st, LinesOf(actions, RuleLineIn(owned, nested)),
                  st.WithBlock(st.Block().(rules := Table(keys, RawIn(owned, nested)))))
  {
    RulesRead(owned, nested, st, actions);
    PutMakesTable(actions, keys, RawIn(owned, nested));
  }

  lemma BlockRules(v: Vocabulary, typ: string, st: ParserState)
    requires GoodVocabulary(v) && st.Sound() && st.current == Some(typ)
    requires st.Block() == BareType(v, typ)
    ensures Leads(st, LinesOf(AnsweredList(v, typ), RuleLineIn(Owned(v, typ), Nested(v, typ))), st.WithBlock(RawType(v, typ)))
  {
    AnsweredNotAll(v, typ);
    AnsweredMentioned(v, typ);
    FillRules(Owned(v, typ), Nested(v, typ), st, AnsweredList(v, typ), Answered(v, typ));
  }

  lemma TypeLineRead(st: ParserState, typ: string)
    requires st.Sound() && ValidIdent(typ) && typ !in st.schema.types
    ensures Leads(st, ["", LineText("", "type", typ)], OpenType(st, typ).value)
  {
    BlankLine(st);
    TypeRead(st, typ);
    var line := LineText("", "type", typ);
    LeadsOn(st, [""], st, [line], OpenType(st, typ).value);
    assert [""] + [line] == ["", line];
  }

  /** A new type with the given block. */
  function WithType(st: ParserState, t: TypeDef): ParserState {
    ParserState(st.schema.(types := st.schema.types[t.name := t]), Some(t.name))
  }

  lemma FillOpened(st: ParserState, typ: string, t: TypeDef)
    requires ValidIdent(typ) && typ !in st.schema.types && t.name == typ
    ensures OpenType(st, typ).Ok? && OpenType(st, typ).value.Sound() && OpenType(st, typ).value.current == Some(typ)
    ensures OpenType(st, typ).value.Block() == TypeDef(typ, map[], map[])
    ensures OpenType(st, typ).value.WithBlock(t) == WithType(st, t)
  {
    var types := st.schema.types[typ := TypeDef(typ, map[], map[])];
    assert types[typ := t] == st.schema.types[typ := t];
  }

  lemma BlockRead(v: Vocabulary, st: ParserState, typ: string)
    requires GoodVocabulary(v) && st.Sound() && ValidIdent(typ) && typ !in st.schema.types
    ensures Leads(st, TypeBlock(v, typ), WithType(st, RawType(v, typ)))
  {
    var first := OpenType(st, typ).value;
    var bare := BareType(v, typ);
    FillOpened(st, typ, RawType(v, typ));
    TypeLineRead(st, typ);
    BlockRelations(v, typ, first);
    LeadsOn(st, ["", LineText("", "type", typ)], first, LinesOf(CarriedList(v, typ), RelationLineIn(v)), first.WithBlock(bare));
    LastBlockCounts(first, bare, RawType(v, typ));
    BlockRules(v, typ, first.WithBlock(bare));
    LeadsOn(st, ["", LineText("", "type", typ)] + LinesOf(CarriedList(v, typ), RelationLineIn(v)), first.WithBlock(bare),
            LinesOf(AnsweredList(v, typ), RuleLineIn(Owned(v, typ), Nested(v, typ))), WithType(st, RawType(v, typ)));
  }

  // ---- All type blocks ----

  ghost function Blocks(v: Vocabulary, typs: seq<string>): seq<string> {
    if typs == [] then [] else TypeBlock(v, typs[0]) + Blocks(v, typs[1..])
  }

  function RawTypeIn(v: Vocabulary): string -> TypeDef {
    typ => RawType(v, typ)
  }

  lemma {:induction false} BlocksRead(v: Vocabulary, st: ParserState, typs: seq<string>) returns (next: ParserState)
    requires GoodVocabulary(v) && st.Sound() && Distinct(typs)
    requires forall typ :: typ in typs ==> ValidIdent(typ) && typ !in st.schema.types
    ensures Leads(st, Blocks(v, typs), next) && next.Sound()
    ensures next.schema == st.schema.(types := Put(st.schema.types, typs, RawTypeIn(v)))
    decreases |typs|
  {
    if typs == [] {
      LeadsNowhere(st);
      next := st;
    } else {
      var typ := typs[0];
      var mid := WithType(st, RawType(v, typ));
      BlockRead(v, st, typ);
      DistinctHead(typs);
      next := BlocksRead(v, mid, typs[1..]);
      LeadsOn(st, TypeBlock(v, typ), mid, Blocks(v, typs[1..]), next);
    }
  }

  ghost function ResourceList(v: Vocabulary): (xs: seq<string>)
    ensures Elements(xs) == ResourceTypes(v) && Distinct(xs)
  {
    LessIsTotal();
    Listing(Less, ResourceTypes(v))
  }

  ghost function TypeList(v: Vocabulary): seq<string> {
    ["app_user", "group", "role"] + v.scopes + ResourceList(v)
  }

  lemma TypeListIs(v: Vocabulary)
    requires GoodVocabulary(v)
    ensures Distinct(TypeList(v)) && Elements(TypeList(v)) == TypeNames(v)
  {
    var fixed := ["app_user", "group", "role"];
    assert Elements(fixed) == STRUCTURAL;
    assert fixed[0][0] == 'a' && fixed[1][0] == 'g' && fixed[2][0] == 'r';
    forall n | n in ResourceList(v) ensures n !in fixed && n !in v.scopes {
      assert n in Elements(ResourceList(v)) && n in v.resources;
      assert n in fixed ==> n in Elements(fixed);
    }
    forall n | n in v.scopes ensures n !in fixed {
      assert n in fixed ==> n in Elements(fixed);
    }
    JoinedDistinct(fixed, v.scopes, ResourceList(v));
    assert forall kind :: kind in v.scopes <==> kind in Elements(v.scopes);
  }

  // ---- The head of the text ----

  ghost function ActionList(v: Vocabulary): (xs: seq<string>)
    ensures Elements(xs) == ActionsOf(v) && Distinct(xs) && xs == SchemaOf(v).actions
  {
    LessIsTotal();
    Listing(Less, ActionsOf(v))
  }

  ghost function DeclaredList(v: Vocabulary): seq<string> {
    ["member_of", "holder"] + StructureList(v) + GrantList(v)
  }

  lemma ActionsNotAll(v: Vocabulary)
    requires GoodVocabulary(v)
    ensures "all" !in ActionList(v) && forall a :: a in ActionList(v) ==> ValidIdent(a)
  {
    assert forall a :: a in ActionList(v) <==> a in Elements(ActionList(v));
  }

  ghost function StructureList(v: Vocabulary): seq<string> {
    (if ResourceTypes(v) != {} && ActionsOf(v) != {} then ["owner"] else []) + (if Nests(v) then ["parent"] else [])
  }

  ghost function GrantList(v: Vocabulary): seq<string> {
    Cans(ActionList(v)) + (if ActionsOf(v) != {} then [CAN_ALL] else [])
  }

  lemma StructureListIs(v: Vocabulary)
    ensures Distinct(StructureList(v))
    ensures Elements(StructureList(v)) == (if ResourceTypes(v) != {} && ActionsOf(v) != {} then {"owner"} else {}) + (if Nests(v) then {"parent"} else {})
    ensures forall n :: n in StructureList(v) ==> n == "owner" || n == "parent"
  {
    assert "owner"[0] == 'o' && "parent"[0] == 'p';
  }

  lemma GrantListIs(v: Vocabulary)
    requires GoodVocabulary(v)
    ensures Distinct(GrantList(v))
    ensures Elements(GrantList(v)) == GrantNames(ActionsOf(v)) + (if ActionsOf(v) != {} then {CAN_ALL} else {})
    ensures forall n :: n in GrantList(v) ==> n != "" && n[0] == 'c'
  {
    ActionsNotAll(v);
    CansList(ActionList(v));
    var all := if ActionsOf(v) != {} then [CAN_ALL] else [];
    DistinctAppend(Cans(ActionList(v)), all);
    assert Elements(GrantList(v)) == Elements(Cans(ActionList(v))) + Elements(all);
  }

  lemma RelationNamesSplit(v: Vocabulary)
    ensures RelationNames(v) == {"member_of", "holder"}
            + ((if ResourceTypes(v) != {} && ActionsOf(v) != {} then {"owner"} else {}) + (if Nests(v) then {"parent"} else {}))
            + (GrantNames(ActionsOf(v)) + (if ActionsOf(v) != {} then {CAN_ALL} else {}))
  {
  }

  lemma FixedListIs(fixed: seq<string>)
    requires fixed == ["member_of", "holder"]
    ensures Distinct(fixed) && Elements(fixed) == {"member_of", "holder"}
    ensures forall n :: n in fixed ==> n != "owner" && n != "parent" && (n != "" ==> n[0] != 'c')
  {
    assert fixed[0][0] == 'm' && fixed[1][0] == 'h' && "owner"[0] == 'o' && "parent"[0] == 'p';
  }

  lemma DeclaredListIs(v: Vocabulary)
    requires GoodVocabulary(v)
    ensures Distinct(DeclaredList(v)) && Elements(DeclaredList(v)) == RelationNames(v)
  {
    var fixed := ["member_of", "holder"];
    RelationNamesSplit(v);
    FixedListIs(fixed);
    StructureListIs(v);
    GrantListIs(v);
    JoinedDistinct(fixed, StructureList(v), GrantList(v));
  }

  function NamespaceLine(organisation: string): string {
    "namespace" + [' '] + ("org:" + organisation)
  }

  /** What is left of the namespace line once comments and white space are gone. */
  function Namespace(organisation: string): string {
    Trim(Cut(Trim(StripComment(NamespaceLine(organisation))), ' ').after)
  }

  lemma {:induction false} SlashesLater(s: string, n: nat)
    requires n <= |s| && forall i :: 0 <= i < n ==> s[i] != '/'
    ensures n <= |BeforeSlashes(s)| <= |s| && BeforeSlashes(s) == s[..|BeforeSlashes(s)|]
  {
    if s != "" && !(|s| >= 2 && s[0] == '/' && s[1] == '/') {
      SlashesLater(s[1..], if n > 0 then n - 1 else 0);
    }
  }

  lemma {:induction false} HashLater(s: string, i: nat, n: nat)
    requires i <= n <= |s| && forall j :: i <= j < n ==> s[j] != '#'
    ensures HashAt(s, i) >= n
    decreases n - i
  {
    if i < n {
      HashLater(s, i + 1, n);
    }
  }

  /** Stripping comments keeps a clean start of the text. */
  lemma StripKeeps(line: string, n: nat)
    requires n <= |line| && forall i :: 0 <= i < n ==> line[i] != '/' && line[i] != '#'
    ensures var kept := StripComment(line);
            n <= |kept| <= |line| && kept == line[..|kept|]
  {
    SlashesLater(line, n);
    HashLater(BeforeSlashes(line), 0, n);
  }

  /** Trimming keeps a start that begins and ends without white space. */
  lemma TrimKeeps(kept: string, n: nat) returns (b: nat)
    requires 0 < n <= |kept| && !IsSpace(kept[0]) && !IsSpace(kept[n - 1])
    ensures n <= b <= |kept| && Trim(kept) == kept[..b] && !IsSpace(kept[b - 1])
  {
    var a;
    a, b := TrimIsSlice(kept);
    assert a == 0;
    assert kept[a..b][b - 1] == kept[b - 1];
  }

  /** The line keeps its keyword and the start of the name, whatever the organisation. */
  lemma NamespaceLineKept(organisation: string) returns (rest: string)
    ensures Trim(StripComment(NamespaceLine(organisation))) == "namespace" + [' '] + rest
    ensures Trimmed(rest)
    ensures |rest| <= |organisation| + 4 && rest == ("org:" + organisation)[..|rest|]
  {
    var line, start := NamespaceLine(organisation), "namespace org:";
    assert line[..14] == start && start[0] == 'n' && start[10] == 'o' && start[13] == ':';
    assert forall i :: 0 <= i < 14 ==> line[i] == start[i];
    StripKeeps(line, 14);
    var kept := StripComment(line);
    var b := TrimKeeps(kept, 14);
    rest := line[10..b];
    assert kept[..b] == line[..b] == line[..10] + rest && line[..10] == "namespace" + [' '];
    assert line[10..] == "org:" + organisation;
  }

  lemma NamespaceIsRest(organisation: string) returns (rest: string)
    ensures Trim(StripComment(NamespaceLine(organisation))) == "namespace" + [' '] + rest
    ensures Trimmed(rest) && Namespace(organisation) == rest && !Blank(rest)
    ensures |rest| <= |organisation| + 4 && rest == ("org:" + organisation)[..|rest|]
  {
    rest := NamespaceLineKept(organisation);
    var word := "namespace";
    assert ' ' !in word;
    CutAt(word, ' ', rest);
    TrimOfTrimmed(rest);
  }

  /** An id that survives being written on a line of its own is the namespace's own. */
  lemma NamespaceIsOrganisation(organisation: string)
    requires Trim(StripComment(NamespaceLine(organisation))) == NamespaceLine(organisation)
    ensures Namespace(organisation) == "org:" + organisation
  {
    var rest := NamespaceIsRest(organisation);
    assert |"namespace" + [' '] + rest| == |NamespaceLine(organisation)|;
  }

  /** The namespace line of a newline-free organisation sets the namespace. */
  lemma NamespaceReads(organisation: string)
    requires '\n' !in organisation
    ensures Leads(START, [NamespaceLine(organisation)], ParserState(START.schema.(namespace := Namespace(organisation)), None))
  {
    var line := NamespaceLine(organisation);
    var rest := NamespaceIsRest(organisation);
    KeywordsAreIdents();
    KeywordCut("namespace", rest);
    forall i | 0 <= i < |line| ensures line[i] != '\n' {
      NamespaceChars(organisation, i);
    }
    OneLine(START, line, "namespace" + [' '] + rest, ParserState(START.schema.(namespace := rest), None));
  }

  lemma NamespaceChars(organisation: string, i: nat)
    requires '\n' !in organisation && i < |NamespaceLine(organisation)|
    ensures NamespaceLine(organisation)[i] != '\n'
  {
    var line := NamespaceLine(organisation);
    if i >= 14 {
      assert line[i] == organisation[i - 14];
    } else {
      assert line[..14] == "namespace org:";
    }
  }

  ghost function ActionLines(v: Vocabulary): seq<string> {
    if ActionsOf(v) == {} then [] else [LineText("", "action", JoinText(ActionList(v), ", ")), ""]
  }

  /** The schema of the vocabulary under the namespace its text spells. */
  ghost function Generated(v: Vocabulary): Schema {
    SchemaOf(v).(namespace := Namespace(v.organisation))
  }

  ghost function Head(v: Vocabulary): seq<string> {
    [NamespaceLine(v.organisation), ""] + ActionLines(v) + LinesOf(DeclaredList(v), DeclarationLine)
  }

  lemma ActionLinesRead(v: Vocabulary, st: ParserState)
    requires GoodVocabulary(v) && st.Sound() && st.current.None? && st.schema.actions == []
    ensures Leads(st, ActionLines(v), st.(schema := st.schema.(actions := ActionList(v))))
  {
    ActionsNotAll(v);
    if ActionsOf(v) == {} {
      LeadsNowhere(st);
      assert ActionList(v) == [] by {
        if ActionList(v) != [] { HeadIsElement(ActionList(v)); }
      }
    } else {
      var a :| a in ActionsOf(v);
      assert a in Elements(ActionList(v)) && a in ActionList(v);
      ActionsRead(st, ActionList(v));
      var next := st.(schema := st.schema.(actions := ActionList(v)));
      BlankLine(next);
      var line := LineText("", "action", JoinText(ActionList(v), ", "));
      LeadsOn(st, [line], next, [""], next);
      assert [line] + [""] == [line, ""];
    }
  }

  lemma RelationTable(v: Vocabulary)
    ensures Table(RelationNames(v), RelationDefOf) == SchemaOf(v).relations
  {
  }

  lemma HeadRead(v: Vocabulary)
    requires GoodVocabulary(v) && '\n' !in v.organisation
    ensures Leads(START, Head(v), ParserState(Generated(v).(types := map[]), None))
  {
    var first := ParserState(START.schema.(namespace := Namespace(v.organisation)), None);
    var line := NamespaceLine(v.organisation);
    NamespaceReads(v.organisation);
    BlankLine(first);
    LeadsOn(START, [line], first, [""], first);
    assert [line] + [""] == [line, ""];
    ActionLinesRead(v, first);
    var second := first.(schema := first.schema.(actions := ActionList(v)));
    LeadsOn(START, [line, ""], first, ActionLines(v), second);
    var names := DeclaredList(v);
    DeclaredListIs(v);
    forall n | n in names ensures ValidIdent(n) {
      assert n in Elements(names);
      RelationIsIdent(v, n);
    }
    DeclarationsRead(second, names);
    PutMakesTable(names, RelationNames(v), RelationDefOf);
    RelationTable(v);
    LeadsOn(START, [line, ""] + ActionLines(v), second, LinesOf(names, DeclarationLine), second.(schema := second.schema.(relations := SchemaOf(v).relations)));
  }

  // ---- The whole text ----

  ghost function MerchantLines(v: Vocabulary): seq<string> {
    Head(v) + Blocks(v, TypeList(v))
  }

  function RawSchema(v: Vocabulary, shell: Schema): Schema {
    shell.(types := Table(TypeNames(v), RawTypeIn(v)))
  }

  lemma MerchantLinesRead(v: Vocabulary) returns (next: ParserState)
    requires GoodVocabulary(v) && '\n' !in v.organisation
    ensures Leads(START, MerchantLines(v), next) && next.Sound() && next.schema == RawSchema(v, Generated(v))
  {
    var head := ParserState(Generated(v).(types := map[]), None);
    HeadRead(v);
    var typs := TypeList(v);
    TypeListIs(v);
    forall typ | typ in typs ensures ValidIdent(typ) {
      assert typ in Elements(typs);
      TypeIsIdent(v, typ);
    }
    next := BlocksRead(v, head, typs);
    LeadsOn(START, Head(v), head, Blocks(v, typs), next);
    PutMakesTable(typs, TypeNames(v), RawTypeIn(v));
  }

  lemma RawRuleResolves(v: Vocabulary, typ: string, a: string)
    requires GoodVocabulary(v) && a in Answered(v, typ)
    ensures RuleText.Resolve(RawType(v, typ), RawBody(a, Owned(v, typ), Nested(v, typ))) == Ok(RuleOf(v, typ, a))
  {
    AnsweredAreActions(v, typ, a);
    RuleRelationsCarried(v, typ, a);
    BodyReads(RawType(v, typ), a, Owned(v, typ), Nested(v, typ));
    RuleOfIsBody(v, typ, a);
  }

  lemma ResolvedTypeIs(t: TypeDef, rules: map<string, Expr>)
    requires rules.Keys == t.rules.Keys
    requires forall a :: a in t.rules ==> RuleText.Resolve(t, t.rules[a]) == Ok(rules[a])
    ensures TypeResolves(t) && ResolvedType(t) == t.(rules := rules)
  {
  }

  lemma ResolvedSchemaIs(schema: Schema, types: map<string, TypeDef>)
    requires types.Keys == schema.types.Keys
    requires forall typ :: typ in schema.types ==> TypeResolves(schema.types[typ]) && ResolvedType(schema.types[typ]) == types[typ]
    ensures SchemaResolves(schema) && ResolvedSchema(schema) == schema.(types := types)
  {
  }

  lemma RelationsAreTable(v: Vocabulary, typ: string)
    ensures Table(Carried(v, typ), TargetsIn(v)) == TypeDefOf(v, typ).relations
  {
  }

  lemma RawTypeResolves(v: Vocabulary, typ: string)
    requires GoodVocabulary(v)
    ensures TypeResolves(RawType(v, typ)) && ResolvedType(RawType(v, typ)) == TypeDefOf(v, typ)
  {
    var t := RawType(v, typ);
    forall a | a in t.rules ensures RuleText.Resolve(t, t.rules[a]) == Ok(TypeDefOf(v, typ).rules[a]) {
      RawRuleResolves(v, typ, a);
    }
    ResolvedTypeIs(t, TypeDefOf(v, typ).rules);
    RelationsAreTable(v, typ);
  }

  lemma RawSchemaResolves(v: Vocabulary)
    requires GoodVocabulary(v)
    ensures SchemaResolves(RawSchema(v, Generated(v))) && ResolvedSchema(RawSchema(v, Generated(v))) == Generated(v)
  {
    var raw := RawSchema(v, Generated(v));
    SchemaSays(v);
    forall typ | typ in raw.types
      ensures TypeResolves(raw.types[typ]) && ResolvedType(raw.types[typ]) == SchemaOf(v).types[typ]
    {
      RawTypeResolves(v, typ);
    }
    ResolvedSchemaIs(raw, SchemaOf(v).types);
  }

  lemma RawSchemaFinishes(v: Vocabulary)
    requires GoodVocabulary(v)
    ensures Finish(RawSchema(v, Generated(v))) == Ok(Generated(v))
  {
    RawSchemaResolves(v);
    MerchantSchemaValidates(v);
    var rest := NamespaceIsRest(v.organisation);
    RenamedValidates(SchemaOf(v), rest);
  }
}

/**
 * MerchantSchema: from what a merchant declared to a validated schema
 * (internal/accessmodel/merchant.go:31-261).
 */
module Generator {
  import opened Wrappers
  import opened Schemas
  import opened Sorting
  import opened Text
  import opened SchemaText
  import opened SchemaLines
  import opened Merchant
  import opened MerchantText

  datatype MerchantModel = MerchantModel(organisationID: string, scopeKinds: seq<string>, capabilityKeys: seq<string>)

  datatype MerchantError =
    | NeedsOrganisation
    | MalformedCapability(key: string)
    | StructuralCapability(key: string)
    | StructuralScope(kind: string)
    | Unparseable(error: SchemaError)
    | InertDeclarations

  type Resources = map<string, set<string>>

  // ---- Reading the vocabulary ----

  function AddKey(resources: Resources, key: string): Result<Resources, MerchantError> {
    var h := Cut(key, ':');
    if !h.found || h.before == "" || h.after == "" then Err(MalformedCapability(key))
    else if h.before in STRUCTURAL then Err(StructuralCapability(key))
    else Ok(resources[h.before := (if h.before in resources then resources[h.before] else {}) + {h.after}])
  }

  function AddKeys(resources: Resources, keys: seq<string>): Result<Resources, MerchantError>
    decreases |keys|
  {
    if keys == [] then Ok(resources)
    else match AddKey(resources, keys[0])
      case Ok(more) => AddKeys(more, keys[1..])
      case Err(e) => Err(e)
  }

  /** The first structural type among the scope kinds. */
  function ScopeClash(kinds: seq<string>): Option<string> {
    if kinds == [] then None
    else if kinds[0] in STRUCTURAL then Some(kinds[0])
    else ScopeClash(kinds[1..])
  }

  /** sort.Strings: repeated kinds stay repeated. */
  function Sorted(xs: seq<string>): seq<string> {
    if xs == [] then [] else Insert(Less, xs[|xs| - 1], Sorted(xs[..|xs| - 1]))
  }

  function VocabularyOf(m: MerchantModel): Result<Vocabulary, MerchantError> {
    if Trim(m.organisationID) == "" then Err(NeedsOrganisation)
    else match AddKeys(map[], m.capabilityKeys)
      case Err(e) => Err(e)
      case Ok(resources) =>
        (match ScopeClash(m.scopeKinds)
         case Some(kind) => Err(StructuralScope(kind))
         case None => Ok(Vocabulary(m.organisationID, Sorted(m.scopeKinds), resources)))
  }

  ghost function MerchantSpec(m: MerchantModel): Result<Schema, MerchantError> {
    match VocabularyOf(m)
    case Err(e) => Err(e)
    case Ok(v) =>
      (match ParseSchema(Unlines(MerchantLines(v)))
       case Err(e) => Err(Unparseable(e))
       case Ok(schema) => if NoWarnings(schema) then Ok(schema) else Err(InertDeclarations))
  }

  method ReadVocabulary(m: MerchantModel) returns (r: Result<Vocabulary, MerchantError>)
    ensures r == VocabularyOf(m)
  {
    if Trim(m.organisationID) == "" {
      return Err(NeedsOrganisation);
    }
    var resources: Resources := map[];
    for i := 0 to |m.capabilityKeys|
      invariant AddKeys(resources, m.capabilityKeys[i..]) == AddKeys(map[], m.capabilityKeys)
    {
      assert m.capabilityKeys[i..][1..] == m.capabilityKeys[i + 1..];
      var key := m.capabilityKeys[i];
      var h := Cut(key, ':');
      if !h.found || h.before == "" || h.after == "" {
        return Err(MalformedCapability(key));
      }
      if h.before in STRUCTURAL {
        return Err(StructuralCapability(key));
      }
      var named := if h.before in resources then resources[h.before] else {};
      resources := resources[h.before := named + {h.after}];
    }
    var scopes: seq<string> := [];
    for i := 0 to |m.scopeKinds|
      invariant scopes == Sorted(m.scopeKinds[..i])
      invariant ScopeClash(m.scopeKinds[i..]) == ScopeClash(m.scopeKinds)
    {
      assert m.scopeKinds[i..][1..] == m.scopeKinds[i + 1..];
      assert m.scopeKinds[..i + 1][..i] == m.scopeKinds[..i];
      if m.scopeKinds[i] in STRUCTURAL {
        return Err(StructuralScope(m.scopeKinds[i]));
      }
      scopes := Insert(Less, m.scopeKinds[i], scopes);
    }
    assert m.scopeKinds[..|m.scopeKinds|] == m.scopeKinds;
    r := Ok(Vocabulary(m.organisationID, scopes, resources));
  }

  // ---- Writing the text ----

  method Write(text: string, lines: seq<string>) returns (r: string)
    ensures r == text + Unlines(lines)
  {
    r := text;
    for i := 0 to |lines|
      invariant r + Unlines(lines[i..]) == text + Unlines(lines)
    {
      assert lines[i..][1..] == lines[i + 1..];
      assert r + (lines[i] + ['\n'] + Unlines(lines[i + 1..])) == r + lines[i] + ['\n'] + Unlines(lines[i + 1..]);
      r := r + lines[i] + ['\n'];
    }
    assert r + Unlines(lines[|lines|..]) == r;
  }

  /** One line for each name. */
  method WriteEach(text: string, names: seq<string>, f: string -> string) returns (r: string)
    ensures r == text + Unlines(LinesOf(names, f))
  {
    r := text;
    for i := 0 to |names|
      invariant r + Unlines(LinesOf(names[i..], f)) == text + Unlines(LinesOf(names, f))
    {
      assert names[i..][1..] == names[i + 1..];
      assert ([f(names[i])] + LinesOf(names[i + 1..], f))[1..] == LinesOf(names[i + 1..], f);
      assert r + (f(names[i]) + ['\n'] + Unlines(LinesOf(names[i + 1..], f))) == r + f(names[i]) + ['\n'] + Unlines(LinesOf(names[i + 1..], f));
      r := r + f(names[i]) + ['\n'];
    }
    assert r + Unlines(LinesOf(names[|names|..], f)) == r;
  }

  method SortedActions(actions: set<string>) returns (xs: seq<string>)
    ensures Ascending(Less, xs) && Elements(xs) == actions
  {
    LessIsTotal();
    xs := SortSet(Less, actions);
  }

  /** A set has one ascending list, so sorting gives the lists the text is made of. */
  lemma SortedIsList(v: Vocabulary, typ: string, xs: seq<string>)
    requires Ascending(Less, xs)
    ensures Elements(xs) == ActionsOf(v) ==> xs == ActionList(v)
    ensures Elements(xs) == Answered(v, typ) ==> xs == AnsweredList(v, typ)
    ensures Elements(xs) == ResourceTypes(v) ==> xs == ResourceList(v)
  {
    LessIsTotal();
    if Elements(xs) == ActionsOf(v) {
      AscendingUnique(Less, xs, Listing(Less, ActionsOf(v)));
    }
    if Elements(xs) == Answered(v, typ) {
      AscendingUnique(Less, xs, Listing(Less, Answered(v, typ)));
    }
    if Elements(xs) == ResourceTypes(v) {
      AscendingUnique(Less, xs, Listing(Less, ResourceTypes(v)));
    }
  }

  method DeclaredNames(v: Vocabulary, actions: seq<string>) returns (names: seq<string>)
    requires actions == ActionList(v)
    ensures names == DeclaredList(v)
  {
    var structure: seq<string> := [];
    if ResourceTypes(v) != {} && ActionsOf(v) != {} {
      structure := structure + ["owner"];
    }
    if Nests(v) {
      structure := structure + ["parent"];
    }
    var grants := Cans(actions);
    if ActionsOf(v) != {} {
      grants := grants + [CAN_ALL];
    }
    assert structure == StructureList(v) && grants == GrantList(v);
    names := ["member_of", "holder"] + structure + grants;
  }

  method WriteActions(text: string, v: Vocabulary, actions: seq<string>) returns (r: string)
    requires actions == ActionList(v)
    ensures r == text + Unlines(ActionLines(v))
  {
    if ActionsOf(v) == {} {
      r := text;
      assert text + Unlines([]) == text;
    } else {
      r := Write(text, [LineText("", "action", JoinText(actions, ", ")), ""]);
    }
  }

  /** Text written piece by piece is the text of all the lines. */
  lemma ThreePieces(text: string, a: seq<string>, b: seq<string>, c: seq<string>)
    ensures text + Unlines(a) + Unlines(b) + Unlines(c) == text + Unlines(a + b + c)
  {
    UnlinesAppend(a + b, c);
    UnlinesAppend(a, b);
  }

  method WriteHead(v: Vocabulary) returns (text: string)
    ensures text == Unlines(Head(v))
  {
    var actions := SortedActions(ActionsOf(v));
    SortedIsList(v, "", actions);
    var names := DeclaredNames(v, actions);
    var first := [NamespaceLine(v.organisation), ""];
    text := Write("", first);
    text := WriteActions(text, v, actions);
    text := WriteEach(text, names, DeclarationLine);
    ThreePieces("", first, ActionLines(v), LinesOf(names, DeclarationLine));
  }

  method CarriedNames(v: Vocabulary, typ: string, actions: seq<string>) returns (names: seq<string>)
    requires actions == AnsweredList(v, typ)
    ensures names == CarriedList(v, typ)
  {
    if typ in v.scopes {
      names := (if |v.scopes| > 1 then ["parent"] else []) + Cans(actions);
      if ActionsOf(v) != {} {
        names := names + [CAN_ALL];
      }
    } else if typ in v.resources {
      names := (if |v.scopes| > 0 then ["parent"] else []) + Cans(actions) + [CAN_ALL, "owner"];
    } else if typ == "group" {
      names := ["member_of"];
    } else if typ == "role" {
      names := ["holder"];
    } else {
      names := [];
    }
  }

  method WriteType(text: string, v: Vocabulary, typ: string) returns (r: string)
    ensures r == text + Unlines(TypeBlock(v, typ))
  {
    var actions := SortedActions(Answered(v, typ));
    SortedIsList(v, typ, actions);
    var names := CarriedNames(v, typ, actions);
    var head := ["", LineText("", "type", typ)];
    var ruleLine := RuleLineIn(Owned(v, typ), Nested(v, typ));
    r := Write(text, head);
    r := WriteEach(r, names, RelationLineIn(v));
    r := WriteEach(r, actions, ruleLine);
    ThreePieces(text, head, LinesOf(names, RelationLineIn(v)), LinesOf(actions, ruleLine));
  }

  lemma BlocksStep(text: string, v: Vocabulary, typs: seq<string>, i: nat)
    requires i < |typs|
    ensures text + Unlines(Blocks(v, typs[i..])) == text + Unlines(TypeBlock(v, typs[i])) + Unlines(Blocks(v, typs[i + 1..]))
  {
    assert typs[i..][1..] == typs[i + 1..];
    UnlinesAppend(TypeBlock(v, typs[i]), Blocks(v, typs[i + 1..]));
  }

  method WriteTypes(text: string, v: Vocabulary, typs: seq<string>) returns (r: string)
    ensures r == text + Unlines(Blocks(v, typs))
  {
    r := text;
    for i := 0 to |typs|
      invariant r + Unlines(Blocks(v, typs[i..])) == text + Unlines(Blocks(v, typs))
    {
      BlocksStep(r, v, typs, i);
      r := WriteType(r, v, typs[i]);
    }
    assert r + Unlines(Blocks(v, typs[|typs|..])) == r;
  }

  /** The capability resources that are no container, sorted. */
  method SortedResources(v: Vocabulary) returns (xs: seq<string>)
    ensures xs == ResourceList(v)
  {
    var keys := SortedActions(v.resources.Keys);
    xs := [];
    for i := 0 to |keys|
      invariant Ascending(Less, xs) && Elements(xs) == Elements(keys[..i]) - Elements(v.scopes)
    {
      NextElement(keys, i);
      if keys[i] !in v.scopes {
        AscendsPast(keys, i, xs);
        xs := xs + [keys[i]];
      }
    }
    assert keys[..|keys|] == keys;
    assert v.resources.Keys - Elements(v.scopes) == ResourceTypes(v);
    SortedIsList(v, "", xs);
  }

  lemma NextElement(keys: seq<string>, i: nat)
    requires i < |keys|
    ensures Elements(keys[..i + 1]) == Elements(keys[..i]) + {keys[i]}
  {
    assert keys[..i + 1] == keys[..i] + [keys[i]];
  }

  lemma AscendsPast(keys: seq<string>, i: nat, xs: seq<string>)
    requires Ascending(Less, keys) && Ascending(Less, xs) && i < |keys|
    requires Elements(xs) <= Elements(keys[..i])
    ensures Ascending(Less, xs + [keys[i]])
    ensures Elements(xs + [keys[i]]) == Elements(xs) + {keys[i]}
  {
    forall x | x in xs ensures Less(x, keys[i]) {
      assert x in Elements(xs) && x in keys[..i];
      var j :| 0 <= j < i && keys[j] == x;
    }
  }

  method WriteSchema(v: Vocabulary) returns (text: string)
    ensures text == Unlines(MerchantLines(v))
  {
    text := WriteHead(v);
    var resources := SortedResources(v);
    text := WriteTypes(text, v, ["app_user", "group", "role"] + v.scopes + resources);
    UnlinesAppend(Head(v), Blocks(v, TypeList(v)));
  }

  method MerchantSchema(m: MerchantModel) returns (r: Result<Schema, MerchantError>)
    ensures r == MerchantSpec(m)
  {
    var v := ReadVocabulary(m);
    if v.Err? {
      return Err(v.error);
    }
    var text := WriteSchema(v.value);
    var parsed := ParseText(text);
    if parsed.Err? {
      return Err(Unparseable(parsed.error));
    }
    if !NoWarnings(parsed.value) {
      return Err(InertDeclarations);
    }
    r := Ok(parsed.value);
  }

  /**
   * The generated text parses, resolves and validates as exactly the schema the
   * vocabulary stands for, under the namespace its first line spells.
   */
  lemma MerchantTextParses(v: Vocabulary)
    requires GoodVocabulary(v) && '\n' !in v.organisation
    ensures ParseSchema(Unlines(MerchantLines(v))) == Ok(Generated(v))
  {
    var lines := MerchantLines(v);
    var next := MerchantLinesRead(v);
    BlankLine(next);
    LeadsOn(START, lines, next, [""], next);
    LeadsReads(START, lines, next);
    LeadsReads(START, lines + [""], next);
    UnlinesSplit(lines);
    RawSchemaFinishes(v);
  }

  // ---- What the vocabulary of a model is ----

  predicate GoodKey(key: string) {
    var h := Cut(key, ':');
    h.found && ValidIdent(h.before) && ValidIdent(h.after) && h.before !in STRUCTURAL && h.after != "all"
  }

  /** An organisation on one line, valid identifiers, distinct scope kinds, nothing structural, no action called `all`. */
  predicate GoodModel(m: MerchantModel) {
    && Trim(m.organisationID) != "" && '\n' !in m.organisationID
    && (forall key :: key in m.capabilityKeys ==> GoodKey(key))
    && (forall kind :: kind in m.scopeKinds ==> ValidIdent(kind) && kind !in STRUCTURAL)
    && Distinct(m.scopeKinds)
  }

  predicate GoodResources(resources: Resources) {
    forall r :: r in resources ==>
      ValidIdent(r) && r !in STRUCTURAL && resources[r] != {} && forall a :: a in resources[r] ==> ValidIdent(a) && a != "all"
  }

  predicate Declares(resources: Resources, r: string, a: string) {
    r in resources && a in resources[r]
  }

  /** The resources name exactly the pairs the keys spell. */
  lemma {:induction false} AddedKeys(resources: Resources, keys: seq<string>, r: string, a: string)
    requires AddKeys(resources, keys).Ok?
    ensures Declares(AddKeys(resources, keys).value, r, a) <==>
            Declares(resources, r, a) || exists key :: key in keys && Cut(key, ':') == Halves(r, a, true)
    decreases |keys|
  {
    if keys != [] {
      var more := AddKey(resources, keys[0]).value;
      AddedKeys(more, keys[1..], r, a);
      assert Declares(more, r, a) <==> Declares(resources, r, a) || Cut(keys[0], ':') == Halves(r, a, true);
      assert forall key :: key in keys <==> key == keys[0] || key in keys[1..];
    }
  }

  lemma {:induction false} GoodKeysAdd(resources: Resources, keys: seq<string>)
    requires GoodResources(resources) && forall key :: key in keys ==> GoodKey(key)
    ensures AddKeys(resources, keys).Ok? && GoodResources(AddKeys(resources, keys).value)
    decreases |keys|
  {
    if keys != [] {
      assert GoodKey(keys[0]);
      assert forall key :: key in keys[1..] ==> key in keys;
      GoodKeysAdd(AddKey(resources, keys[0]).value, keys[1..]);
    }
  }

  lemma {:induction false} NoScopeClash(kinds: seq<string>)
    requires forall kind :: kind in kinds ==> kind !in STRUCTURAL
    ensures ScopeClash(kinds).None?
    decreases |kinds|
  {
    if kinds != [] {
      assert kinds[0] in kinds;
      NoScopeClash(kinds[1..]);
    }
  }

  lemma {:induction false} SortedAscends(xs: seq<string>)
    requires Distinct(xs)
    ensures Ascending(Less, Sorted(xs)) && Elements(Sorted(xs)) == Elements(xs)
    decreases |xs|
  {
    if xs != [] {
      LessIsTotal();
      var n := |xs| - 1;
      SortedAscends(xs[..n]);
      assert xs[n] !in Elements(Sorted(xs[..n]));
      InsertAscends(Less, xs[n], Sorted(xs[..n]));
      assert xs == xs[..n] + [xs[n]];
    }
  }

  lemma GoodModelVocabulary(m: MerchantModel)
    requires GoodModel(m)
    ensures VocabularyOf(m).Ok? && GoodVocabulary(VocabularyOf(m).value)
  {
    GoodKeysAdd(map[], m.capabilityKeys);
    NoScopeClash(m.scopeKinds);
    SortedAscends(m.scopeKinds);
    LessIsTotal();
    var scopes := Sorted(m.scopeKinds);
    forall i | 0 <= i < |scopes| ensures ValidIdent(scopes[i]) && scopes[i] !in STRUCTURAL {
      assert scopes[i] in Elements(scopes);
    }
    forall i, j | 0 <= i < j < |scopes| ensures scopes[i] != scopes[j] {
      assert Less(scopes[i], scopes[j]);
    }
  }

  /**
   * Every good merchant model gets a schema: the text generated for it parses,
   * validates and declares nothing inert, and the schema is exactly the one its
   * vocabulary stands for. Its namespace is `org:` and the organisation, less any
   * comment and trailing white space of theirs; an organisation without either
   * names the namespace itself.
   */
  lemma GoodModelGetsItsSchema(m: MerchantModel)
    requires GoodModel(m)
    ensures VocabularyOf(m).Ok? && MerchantSpec(m) == Ok(Generated(VocabularyOf(m).value))
    ensures Trim(StripComment(NamespaceLine(m.organisationID))) == NamespaceLine(m.organisationID) ==>
      MerchantSpec(m) == Ok(SchemaOf(VocabularyOf(m).value))
  {
    GoodModelVocabulary(m);
    var v := VocabularyOf(m).value;
    MerchantTextParses(v);
    MerchantSchemaHasNoWarnings(v);
    RenamedHasNoWarnings(SchemaOf(v), Namespace(v.organisation));
    if Trim(StripComment(NamespaceLine(m.organisationID))) == NamespaceLine(m.organisationID) {
      NamespaceIsOrganisation(m.organisationID);
    }
  }

  /** What the namespace of a generated schema is: a trimmed start of `org:` and the organisation. */
  lemma NamespaceIsStart(organisation: string)
    ensures Trimmed(Namespace(organisation)) && |Namespace(organisation)| <= |organisation| + 4
    ensures Namespace(organisation) == ("org:" + organisation)[..|Namespace(organisation)|]
  {
    var rest := NamespaceIsRest(organisation);
  }

  /** The vocabulary holds the declared scope kinds, and the capabilities the keys spell. */
  lemma VocabularyIsDeclared(m: MerchantModel, kind: string, r: string, a: string)
    requires GoodModel(m)
    ensures VocabularyOf(m).Ok?
    ensures kind in VocabularyOf(m).value.scopes <==> kind in m.scopeKinds
    ensures Declares(VocabularyOf(m).value.resources, r, a) <==> exists key :: key in m.capabilityKeys && Cut(key, ':') == Halves(r, a, true)
  {
    GoodModelVocabulary(m);
    AddedKeys(map[], m.capabilityKeys, r, a);
    SortedAscends(m.scopeKinds);
    assert kind in Sorted(m.scopeKinds) <==> kind in Elements(Sorted(m.scopeKinds));
  }

  // ---- Which models are refused before any text is written ----

  predicate Structural(name: string) {
    name == "app_user" || name == "group" || name == "role"
  }

  /** A resource and an action, neither empty, around the first colon; the resource is not structural. */
  predicate UsableKey(key: string) {
    var h := Cut(key, ':');
    h.found && h.before != "" && h.after != "" && !Structural(h.before)
  }

  lemma {:induction false} KeysRefusedFor(resources: Resources, keys: seq<string>)
    ensures AddKeys(resources, keys).Ok? <==> forall key :: key in keys ==> UsableKey(key)
    ensures AddKeys(resources, keys).Err? ==>
      exists key :: key in keys && !UsableKey(key)
        && AddKeys(resources, keys).error == if Structural(Cut(key, ':').before) && Cut(key, ':').found && Cut(key, ':').after != "" then StructuralCapability(key) else MalformedCapability(key)
    decreases |keys|
  {
    if keys != [] {
      assert forall key :: key in keys <==> key == keys[0] || key in keys[1..];
      if UsableKey(keys[0]) {
        KeysRefusedFor(AddKey(resources, keys[0]).value, keys[1..]);
      }
    }
  }

  lemma {:induction false} ScopesRefusedFor(kinds: seq<string>)
    ensures ScopeClash(kinds).None? <==> forall kind :: kind in kinds ==> !Structural(kind)
    ensures ScopeClash(kinds).Some? ==> ScopeClash(kinds).value in kinds && Structural(ScopeClash(kinds).value)
    decreases |kinds|
  {
    if kinds != [] {
      assert kinds[0] in STRUCTURAL <==> Structural(kinds[0]);
      assert forall kind :: kind in kinds <==> kind == kinds[0] || kind in kinds[1..];
      ScopesRefusedFor(kinds[1..]);
    }
  }

  lemma {:induction false} SortedKeepsAll(xs: seq<string>)
    ensures multiset(Sorted(xs)) == multiset(xs)
    decreases |xs|
  {
    if xs != [] {
      var n := |xs| - 1;
      SortedKeepsAll(xs[..n]);
      InsertKeepsAll(xs[n], Sorted(xs[..n]));
      assert xs == xs[..n] + [xs[n]];
    }
  }

  lemma {:induction false} InsertKeepsAll(x: string, xs: seq<string>)
    ensures multiset(Insert(Less, x, xs)) == multiset{x} + multiset(xs)
    decreases |xs|
  {
    if xs != [] && !Less(x, xs[0]) {
      InsertKeepsAll(x, xs[1..]);
      assert xs == [xs[0]] + xs[1..];
    }
  }

  /**
   * A model has a vocabulary exactly when its organisation is not blank, every key is
   * usable and no scope kind is structural; each refusal names its cause.
   */
  lemma VocabularyRefusedFor(m: MerchantModel)
    ensures var r := VocabularyOf(m);
            && (r.Ok? <==>
                  && !Blank(m.organisationID)
                  && (forall key :: key in m.capabilityKeys ==> UsableKey(key))
                  && (forall kind :: kind in m.scopeKinds ==> !Structural(kind)))
            && (r == Err(NeedsOrganisation) <==> Blank(m.organisationID))
            && (forall key :: r == Err(MalformedCapability(key)) || r == Err(StructuralCapability(key)) ==> key in m.capabilityKeys && !UsableKey(key))
            && (forall kind :: r == Err(StructuralScope(kind)) ==> kind in m.scopeKinds && Structural(kind))
    ensures var r := VocabularyOf(m);
            r.Ok? ==>
              && r.value.organisation == m.organisationID && multiset(r.value.scopes) == multiset(m.scopeKinds)
              && forall resource, action :: Declares(r.value.resources, resource, action) <==>
                   exists key :: key in m.capabilityKeys && Cut(key, ':') == Halves(resource, action, true)
  {
    TrimIsEmptyIff(m.organisationID);
    KeysRefusedFor(map[], m.capabilityKeys);
    ScopesRefusedFor(m.scopeKinds);
    SortedKeepsAll(m.scopeKinds);
    if VocabularyOf(m).Ok? {
      forall resource, action
        ensures Declares(VocabularyOf(m).value.resources, resource, action) <==>
                exists key :: key in m.capabilityKeys && Cut(key, ':') == Halves(resource, action, true)
      {
        AddedKeys(map[], m.capabilityKeys, resource, action);
      }
    }
  }

  lemma TrimIsEmptyIff(s: string)
    ensures Trim(s) == "" <==> Blank(s)
  {
    var a, b := TrimIsSlice(s);
    if a != b {
      assert !IsSpace(s[a..b][0]) && s[a..b][0] == s[a];
    }
  }
}
