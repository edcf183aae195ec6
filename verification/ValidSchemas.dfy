/**
 * What loading a schema rules out: over a validated schema and writable edges no
 * walk ever asks a relation or a rule that is not there (core/reach/schema.go:198-402).
 */
module ValidSchemas {
  import opened Wrappers
  import opened Graph
  import opened Schemas
  import opened Walk
  import opened Semantics
  import opened Bounds
  import opened Checks
  import opened Delegate
  import opened Validation
  import opened Declarations
  import Delegation
  import Sorting
  import Text

  /** What the type itself says about the term: it carries the relation, or answers the rule. */
  ghost predicate SaidBy(schema: Schema, typ: string, term: Expr) {
    && typ in schema.types
    && match term
       case RelationTerm(rel) => rel in schema.relations && rel in schema.types[typ].relations
       case RuleTerm(a) => a in schema.actions && a in schema.types[typ].rules
       case ArrowTerm(rel, target) =>
         && rel in schema.relations && rel in schema.types[typ].relations
         && forall spec :: spec in schema.types[typ].relations[rel] ==>
              spec.typ in schema.types && (target in schema.types[spec.typ].rules || target in schema.types[spec.typ].relations)
       case _ => false
  }

  /** The question is about something its type says, or follows a transitive relation to a node of a declared type. */
  ghost predicate IsDeclared(schema: Schema, k: Key) {
    || SaidBy(schema, k.obj.typ, k.term)
    || (k.term.RelationTerm? && k.obj.typ in schema.types
        && k.term.relation in schema.relations && schema.relations[k.term.relation].transitive)
  }

  ghost function DeclaredKeys(schema: Schema): iset<Key> {
    iset k | IsDeclared(schema, k)
  }

  lemma {:induction false} ExprIsDeclared(schema: Schema, t: TypeDef, obj: NodeRef, expr: Expr)
    requires ValidSchema(schema) && obj.typ in schema.types && t == schema.types[obj.typ]
    requires ValidExpr(schema, t, expr)
    ensures Inside(DeclaredKeys(schema), obj, expr)
    decreases expr
  {
    assert ValidRelations(schema, t) && ValidRules(schema, t);
    match expr {
      case Union(terms) =>
        forall term | term in terms ensures Inside(DeclaredKeys(schema), obj, term) { ExprIsDeclared(schema, t, obj, term); }
      case Intersect(terms) =>
        forall term | term in terms ensures Inside(DeclaredKeys(schema), obj, term) { ExprIsDeclared(schema, t, obj, term); }
      case Exclude(base, subtract) =>
        ExprIsDeclared(schema, t, obj, base);
        ExprIsDeclared(schema, t, obj, subtract);
      case ArrowTerm(rel, target) =>
        forall spec | spec in t.relations[rel]
          ensures spec.typ in schema.types && (target in schema.types[spec.typ].rules || target in schema.types[spec.typ].relations)
        {
          assert ValidTarget(schema, spec);
          assert Validation.Answers(schema, spec.typ, target);
        }
      case _ =>
    }
  }

  lemma RuleIsDeclared(schema: Schema, obj: NodeRef, a: string)
    requires ValidSchema(schema) && schema.HasRule(obj.typ, a)
    ensures Inside(DeclaredKeys(schema), obj, schema.Rule(obj.typ, a))
  {
    var t := schema.types[obj.typ];
    assert ValidRules(schema, t);
    ExprIsDeclared(schema, t, obj, t.rules[a]);
  }

  lemma FarIsDeclared(schema: Schema, typ: string, term: Expr)
    requires ValidSchema(schema) && typ in schema.types
    requires (term.RuleTerm? && term.action in schema.types[typ].rules) || (term.RelationTerm? && term.relation in schema.types[typ].relations)
    ensures SaidBy(schema, typ, term)
  {
    assert ValidRelations(schema, schema.types[typ]) && ValidRules(schema, schema.types[typ]);
  }

  lemma EdgeAsksDeclared(e: Evaluator, env: Env, k: Key, ed: Edge)
    requires OverWritable(e, env) && ValidSchema(env.schema)
    requires Live(env, k.obj, k.term, ed) && IsDeclared(env.schema, k)
    ensures EdgeInside(env, DeclaredKeys(env.schema), k.term, ed)
  {
    var target := EdgeIsDeclared(e, env, k.obj, k.term, ed);
    assert ValidRelations(env.schema, env.schema.types[k.obj.typ]);
    assert ValidTarget(env.schema, target);
    var g := GoalOf(env, k.term, ed);
    if g.Ask? && (k.term.ArrowTerm? || target.relation != "") {
      FarIsDeclared(env.schema, g.node.typ, g.term);
    }
  }

  /** Over writable edges declared questions lead to declared questions only. */
  lemma DeclaredIsClosed(e: Evaluator, env: Env)
    requires OverWritable(e, env) && ValidSchema(env.schema)
    ensures ClosedUnderAsking(env, DeclaredKeys(env.schema))
  {
    forall k | k in DeclaredKeys(env.schema) ensures AsksInside(env, DeclaredKeys(env.schema), k) {
      if k.term.RuleTerm? {
        if env.schema.HasRule(k.obj.typ, k.term.action) {
          RuleIsDeclared(env.schema, k.obj, k.term.action);
        }
      } else if Declared(env, k.term) {
        forall ed | ed in OutEdges(env, k.obj, k.term) && ed.Active(env.now) ensures EdgeInside(env, DeclaredKeys(env.schema), k.term, ed) {
          EdgeAsksDeclared(e, env, k, ed);
        }
      }
    }
  }

  /**
   * Whatever a check over a validated schema and writable edges asks, from any rule of
   * any object on, is declared: no name in it reaches nothing for not being there.
   */
  lemma NothingDangles(e: Evaluator, subject: NodeRef, now: int, resource: NodeRef, action: string)
    requires ValidSchema(e.schema) && Delegation.WritableStore(e) && e.schema.HasRule(resource.typ, action)
    ensures Inside(DeclaredKeys(e.schema), resource, e.schema.Rule(resource.typ, action))
    ensures ClosedUnderAsking(EnvOf(e, subject, now), DeclaredKeys(e.schema))
  {
    RuleIsDeclared(e.schema, resource, action);
    DeclaredIsClosed(e, EnvOf(e, subject, now));
  }

  // ---- Exactly which schemas load ----

  /** Every leaf of the expression is said by the type, and no operator is left without operands. */
  ghost predicate SaidThroughout(schema: Schema, typ: string, expr: Expr) {
    match expr
    case Union(terms) => terms != [] && forall t :: t in terms ==> SaidThroughout(schema, typ, t)
    case Intersect(terms) => terms != [] && forall t :: t in terms ==> SaidThroughout(schema, typ, t)
    case Exclude(base, subtract) => SaidThroughout(schema, typ, base) && SaidThroughout(schema, typ, subtract)
    case _ => SaidBy(schema, typ, expr)
  }

  /** Names are identifiers, things are keyed by their names, and no action comes twice. */
  ghost predicate NamesAreGood(schema: Schema) {
    && (exists i :: 0 <= i < |schema.namespace| && !Text.IsSpace(schema.namespace[i]))
    && (forall a :: a in schema.actions ==> Text.ValidIdent(a)) && Sorting.Distinct(schema.actions)
    && (forall rel :: rel in schema.relations ==> Text.ValidIdent(rel) && schema.relations[rel].name == rel)
    && (forall typ :: typ in schema.types ==> Text.ValidIdent(typ) && schema.types[typ].name == typ)
  }

  /** Every relation a type carries is declared and has targets, each a declared type, or a relation that type carries. */
  ghost predicate TargetsAreGood(schema: Schema, t: TypeDef) {
    forall rel :: rel in t.relations ==>
      && rel in schema.relations && t.relations[rel] != []
      && forall spec :: spec in t.relations[rel] ==>
           && spec.typ in schema.types
           && (spec.relation == "" || (spec.relation in schema.relations && spec.relation in schema.types[spec.typ].relations))
  }

  /** Every rule answers a declared action and says only what its type says; no rule refers to itself, however indirectly. */
  ghost predicate RulesAreGood(schema: Schema, typ: string)
    requires typ in schema.types
  {
    && (forall a :: a in schema.types[typ].rules ==> a in schema.actions && SaidThroughout(schema, typ, schema.types[typ].rules[a]))
    && Acyclic(schema.types[typ])
  }

  lemma {:induction false} SaidIsValid(schema: Schema, typ: string, expr: Expr)
    requires typ in schema.types && ValidRelations(schema, schema.types[typ])
    requires forall a :: a in schema.types[typ].rules ==> a in schema.actions
    ensures ValidExpr(schema, schema.types[typ], expr) <==> SaidThroughout(schema, typ, expr)
    decreases expr
  {
    var t := schema.types[typ];
    match expr {
      case Union(terms) =>
        forall term | term in terms ensures ValidExpr(schema, t, term) <==> SaidThroughout(schema, typ, term) { SaidIsValid(schema, typ, term); }
      case Intersect(terms) =>
        forall term | term in terms ensures ValidExpr(schema, t, term) <==> SaidThroughout(schema, typ, term) { SaidIsValid(schema, typ, term); }
      case Exclude(base, subtract) =>
        SaidIsValid(schema, typ, base);
        SaidIsValid(schema, typ, subtract);
      case ArrowTerm(rel, target) => ArrowIsSaid(schema, typ, rel, target);
      case _ =>
    }
  }

  lemma ArrowIsSaid(schema: Schema, typ: string, rel: string, target: string)
    requires typ in schema.types && ValidRelations(schema, schema.types[typ])
    ensures ValidExpr(schema, schema.types[typ], ArrowTerm(rel, target)) <==> SaidBy(schema, typ, ArrowTerm(rel, target))
  {
    var t := schema.types[typ];
    if rel in t.relations {
      forall spec | spec in t.relations[rel]
        ensures spec.typ in schema.types
        ensures Validation.Answers(schema, spec.typ, target) <==> target in schema.types[spec.typ].rules || target in schema.types[spec.typ].relations
      {
        assert ValidTarget(schema, spec);
      }
    }
  }

  lemma GoodTargetsAreValid(schema: Schema, t: TypeDef)
    ensures ValidRelations(schema, t) <==> TargetsAreGood(schema, t)
  {
  }

  lemma GoodRulesAreValid(schema: Schema, typ: string)
    requires typ in schema.types && ValidRelations(schema, schema.types[typ])
    ensures ValidRules(schema, schema.types[typ]) <==> RulesAreGood(schema, typ)
  {
    var t := schema.types[typ];
    RuleCycleCheckDecides(t);
    if forall a :: a in t.rules ==> a in schema.actions {
      forall a | a in t.rules ensures ValidExpr(schema, t, t.rules[a]) <==> SaidThroughout(schema, typ, t.rules[a]) {
        SaidIsValid(schema, typ, t.rules[a]);
      }
    }
  }

  /** The validator accepts exactly the schemas whose names, targets and rules are good. */
  lemma LoadsIff(schema: Schema)
    ensures ValidSchema(schema) <==>
      && NamesAreGood(schema)
      && forall typ :: typ in schema.types ==> TargetsAreGood(schema, schema.types[typ]) && RulesAreGood(schema, typ)
  {
    forall typ | typ in schema.types
      ensures ValidRelations(schema, schema.types[typ]) && ValidRules(schema, schema.types[typ]) <==>
              TargetsAreGood(schema, schema.types[typ]) && RulesAreGood(schema, typ)
    {
      GoodTargetsAreValid(schema, schema.types[typ]);
      if ValidRelations(schema, schema.types[typ]) {
        GoodRulesAreValid(schema, typ);
      }
    }
    ActionsAreIdents(schema);
  }

  lemma ActionsAreIdents(schema: Schema)
    ensures (forall i :: 0 <= i < |schema.actions| ==> Text.ValidIdent(schema.actions[i])) <==> forall a :: a in schema.actions ==> Text.ValidIdent(a)
  {
  }
}
