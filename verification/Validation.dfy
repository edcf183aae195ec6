/** Schema validation and what passing it buys (core/reach/schema.go:198-402). */
module Validation {
  import opened Graph
  import opened Schemas
  import opened Walk
  import opened Delegate
  import opened Candidacy
  import Bounds
  import Sorting
  import Text

  // ---- The checks, one predicate per validator function ----

  /** The far end answers the target as a rule or as a relation it carries. */
  predicate Answers(schema: Schema, typ: string, target: string) {
    typ in schema.types && (target in schema.types[typ].rules || target in schema.types[typ].relations)
  }

  /** validateExpr succeeds. */
  predicate ValidExpr(schema: Schema, t: TypeDef, expr: Expr) {
    match expr
    case RelationTerm(rel) => rel in t.relations
    case RuleTerm(a) => a in t.rules
    case ArrowTerm(rel, target) =>
      rel in t.relations && forall spec :: spec in t.relations[rel] && spec.typ in schema.types ==> Answers(schema, spec.typ, target)
    case Union(terms) => terms != [] && forall term :: term in terms ==> ValidExpr(schema, t, term)
    case Intersect(terms) => terms != [] && forall term :: term in terms ==> ValidExpr(schema, t, term)
    case Exclude(base, subtract) => ValidExpr(schema, t, base) && ValidExpr(schema, t, subtract)
    case IdentTerm(_) => false
  }

  predicate ValidTarget(schema: Schema, spec: TargetSpec) {
    && spec.typ in schema.types
    && (spec.relation != "" ==> spec.relation in schema.relations && spec.relation in schema.types[spec.typ].relations)
  }

  /** validateTypeRelations succeeds. */
  predicate ValidRelations(schema: Schema, t: TypeDef) {
    forall rel :: rel in t.relations ==>
      && rel in schema.relations
      && t.relations[rel] != []
      && forall spec :: spec in t.relations[rel] ==> ValidTarget(schema, spec)
  }

  /** checkRuleCycle succeeds from this rule, given the rules on the current path. */
  predicate CycleFree(t: TypeDef, current: string, seen: set<string>)
    decreases t.rules.Keys - seen, RuleTerm(current), 0
  {
    current !in seen && (current in t.rules ==> ExprCycleFree(t, t.rules[current], seen + {current}))
  }

  predicate ExprCycleFree(t: TypeDef, expr: Expr, seen: set<string>)
    decreases t.rules.Keys - seen, expr, 1
  {
    match expr
    case RuleTerm(a) => CycleFree(t, a, seen)
    case Union(terms) => forall term :: term in terms ==> ExprCycleFree(t, term, seen)
    case Intersect(terms) => forall term :: term in terms ==> ExprCycleFree(t, term, seen)
    case Exclude(base, subtract) => ExprCycleFree(t, base, seen) && ExprCycleFree(t, subtract, seen)
    case _ => true
  }

  /** validateTypeRules succeeds. */
  predicate ValidRules(schema: Schema, t: TypeDef) {
    && (forall a :: a in t.rules ==> schema.HasAction(a) && ValidExpr(schema, t, t.rules[a]))
    && (forall a :: a in t.rules ==> CycleFree(t, a, {}))
  }

  /** Validate returns no error. */
  predicate ValidSchema(schema: Schema) {
    && !Text.Blank(schema.namespace)
    && (forall i :: 0 <= i < |schema.actions| ==> Text.ValidIdent(schema.actions[i]))
    && (forall i, j :: 0 <= i < j < |schema.actions| ==> schema.actions[i] != schema.actions[j])
    && (forall rel :: rel in schema.relations ==> Text.ValidIdent(rel) && schema.relations[rel].name == rel)
    && (forall typ :: typ in schema.types ==>
          && Text.ValidIdent(typ)
          && schema.types[typ].name == typ
          && ValidRelations(schema, schema.types[typ])
          && ValidRules(schema, schema.types[typ]))
  }

  lemma {:induction false} ValidExprRenamed(schema: Schema, namespace: string, t: TypeDef, expr: Expr)
    requires ValidExpr(schema, t, expr)
    ensures ValidExpr(schema.(namespace := namespace), t, expr)
    decreases expr
  {
    if expr.Union? || expr.Intersect? {
      forall term | term in expr.terms ensures ValidExpr(schema.(namespace := namespace), t, term) {
        ValidExprRenamed(schema, namespace, t, term);
      }
    } else if expr.Exclude? {
      ValidExprRenamed(schema, namespace, t, expr.base);
      ValidExprRenamed(schema, namespace, t, expr.subtract);
    } else if expr.ArrowTerm? {
      forall spec | spec in t.relations[expr.relation] && spec.typ in schema.types ensures Answers(schema.(namespace := namespace), spec.typ, expr.target) {
        assert Answers(schema, spec.typ, expr.target);
      }
    }
  }

  /** Validity does not depend on the namespace's name, so long as it has one. */
  lemma RenamedValidates(schema: Schema, namespace: string)
    requires ValidSchema(schema) && !Text.Blank(namespace)
    ensures ValidSchema(schema.(namespace := namespace))
  {
    var renamed := schema.(namespace := namespace);
    forall typ | typ in schema.types ensures ValidRelations(renamed, schema.types[typ]) && ValidRules(renamed, schema.types[typ]) {
      var t := schema.types[typ];
      assert ValidRelations(schema, t) && ValidRules(schema, t);
      forall rel, spec | rel in t.relations && spec in t.relations[rel] ensures ValidTarget(renamed, spec) {
        assert ValidTarget(schema, spec);
      }
      forall a | a in t.rules ensures renamed.HasAction(a) && ValidExpr(renamed, t, t.rules[a]) {
        assert schema.HasAction(a);
        ValidExprRenamed(schema, namespace, t, t.rules[a]);
      }
    }
  }

  // ---- checkRuleCycle decides acyclicity ----

  /** The rules an expression references, in any position. */
  function References(expr: Expr): set<string> {
    match expr
    case RuleTerm(a) => {a}
    case Union(terms) => set term, a | term in terms && a in References(term) :: a
    case Intersect(terms) => set term, a | term in terms && a in References(term) :: a
    case Exclude(base, subtract) => References(base) + References(subtract)
    case _ => {}
  }

  /** A walk along rule references. */
  predicate ReferencePath(t: TypeDef, path: seq<string>) {
    path != [] && forall i :: 0 <= i < |path| - 1 ==> path[i] in t.rules && path[i + 1] in References(t.rules[path[i]])
  }

  /** No walk along rule references returns to a rule it left. */
  ghost predicate Acyclic(t: TypeDef) {
    forall path, i, j :: ReferencePath(t, path) && 0 <= i < j < |path| ==> path[i] != path[j]
  }

  predicate AllCycleFree(t: TypeDef, actions: set<string>, seen: set<string>) {
    forall a :: a in actions ==> CycleFree(t, a, seen)
  }

  /** Checking an expression is checking each of its references. */
  lemma {:induction false} ExprCycleFreeIsAll(t: TypeDef, expr: Expr, seen: set<string>)
    ensures ExprCycleFree(t, expr, seen) <==> AllCycleFree(t, References(expr), seen)
    decreases expr
  {
    match expr
    case Union(terms) =>
      TermsCycleFree(t, expr, terms, seen);
      UnionReferences(expr, terms);
    case Intersect(terms) =>
      TermsCycleFree(t, expr, terms, seen);
      UnionReferences(expr, terms);
    case Exclude(base, subtract) =>
      ExprCycleFreeIsAll(t, base, seen);
      ExprCycleFreeIsAll(t, subtract, seen);
    case RuleTerm(a) =>
      assert a in References(expr);
      assert ExprCycleFree(t, expr, seen) <==> CycleFree(t, a, seen);
    case _ =>
  }

  lemma UnionReferences(expr: Expr, terms: seq<Expr>)
    requires expr == Union(terms) || expr == Intersect(terms)
    ensures forall a :: a in References(expr) <==> exists term :: term in terms && a in References(term)
  {
  }

  lemma {:induction false} TermsCycleFree(t: TypeDef, expr: Expr, terms: seq<Expr>, seen: set<string>)
    requires forall term :: term in terms ==> term < expr
    ensures forall term :: term in terms ==>
      (ExprCycleFree(t, term, seen) <==> AllCycleFree(t, References(term), seen))
    decreases expr, 0
  {
    forall term | term in terms
      ensures ExprCycleFree(t, term, seen) <==> AllCycleFree(t, References(term), seen)
    {
      ExprCycleFreeIsAll(t, term, seen);
    }
  }

  /** From a rule that passes, no walk meets a rule of the current path or itself again. */
  lemma {:induction false} PassedPathsAreFresh(t: TypeDef, path: seq<string>, seen: set<string>, j: nat)
    requires ReferencePath(t, path) && j < |path|
    requires CycleFree(t, path[0], seen)
    ensures path[j] !in seen && forall i :: 0 <= i < j ==> path[i] != path[j]
    decreases |path|
  {
    if j > 0 {
      assert ExprCycleFree(t, t.rules[path[0]], seen + {path[0]});
      ExprCycleFreeIsAll(t, t.rules[path[0]], seen + {path[0]});
      assert path[0 + 1] in References(t.rules[path[0]]);
      var rest := path[1..];
      assert forall i :: 0 <= i < |rest| ==> rest[i] == path[i + 1];
      PassedPathsAreFresh(t, rest, seen + {path[0]}, j - 1);
      forall i | 0 <= i < j ensures path[i] != path[j] {
        if i > 0 {
          assert rest[i - 1] != rest[j - 1];
        }
      }
    }
  }

  /** A rule that fails starts a walk that ends on the current path or where it has been. */
  lemma {:induction false} FailedPathRepeats(t: TypeDef, current: string, seen: set<string>) returns (path: seq<string>)
    requires !CycleFree(t, current, seen)
    ensures ReferencePath(t, path) && path[0] == current
    ensures path[|path| - 1] in seen || exists i :: 0 <= i < |path| - 1 && path[i] == path[|path| - 1]
    decreases t.rules.Keys - seen
  {
    if current in seen {
      path := [current];
    } else {
      ExprCycleFreeIsAll(t, t.rules[current], seen + {current});
      var a :| a in References(t.rules[current]) && !CycleFree(t, a, seen + {current});
      assert t.rules.Keys - (seen + {current}) < t.rules.Keys - seen by {
        assert current in t.rules.Keys - seen;
      }
      var rest := FailedPathRepeats(t, a, seen + {current});
      path := [current] + rest;
      assert path[|path| - 1] == rest[|rest| - 1];
      if i :| 0 <= i < |rest| - 1 && rest[i] == rest[|rest| - 1] {
        assert path[i + 1] == rest[i];
      } else if rest[|rest| - 1] == current {
        assert path[0] == current;
      }
    }
  }

  /** The validator accepts a type's rules exactly when its rule references have no cycle. */
  lemma RuleCycleCheckDecides(t: TypeDef)
    ensures (forall a :: a in t.rules ==> CycleFree(t, a, {})) <==> Acyclic(t)
  {
    if forall a :: a in t.rules ==> CycleFree(t, a, {}) {
      forall path, i, j | ReferencePath(t, path) && 0 <= i < j < |path| ensures path[i] != path[j] {
        PassedPathsAreFresh(t, path, {}, j);
      }
    }
    if Acyclic(t) {
      forall a | a in t.rules ensures CycleFree(t, a, {}) {
        if !CycleFree(t, a, {}) {
          var path := FailedPathRepeats(t, a, {});
          assert false;
        }
      }
    }
  }

  // ---- exprFeeds is exact ----

  /** The relation occurs, outside subtracted sides, after unfolding at most n rule references. */
  ghost predicate Occurs(t: TypeDef, n: nat, expr: Expr, relation: string, avoided: set<string>)
    decreases n, expr
  {
    match expr
    case RelationTerm(rel) => rel == relation
    case ArrowTerm(rel, _) => rel == relation
    case RuleTerm(a) => n > 0 && a in t.rules && a !in avoided && Occurs(t, n - 1, t.rules[a], relation, avoided)
    case Union(terms) => exists term :: term in terms && Occurs(t, n, term, relation, avoided)
    case Intersect(terms) => exists term :: term in terms && Occurs(t, n, term, relation, avoided)
    case Exclude(base, _) => Occurs(t, n, base, relation, avoided)
    case IdentTerm(_) => false
  }

  lemma {:induction false} OccursMono(t: TypeDef, n: nat, m: nat, expr: Expr, relation: string, avoided: set<string>)
    requires n <= m && Occurs(t, n, expr, relation, avoided)
    ensures Occurs(t, m, expr, relation, avoided)
    decreases n, expr
  {
    match expr
    case RuleTerm(a) => OccursMono(t, n - 1, m - 1, t.rules[a], relation, avoided);
    case Union(terms) =>
      var term :| term in terms && Occurs(t, n, term, relation, avoided);
      OccursMono(t, n, m, term, relation, avoided);
    case Intersect(terms) =>
      var term :| term in terms && Occurs(t, n, term, relation, avoided);
      OccursMono(t, n, m, term, relation, avoided);
    case Exclude(base, _) => OccursMono(t, n, m, base, relation, avoided);
    case _ =>
  }

  /** An occurrence that cannot avoid rule a passes through a. */
  lemma {:induction false} OccursThrough(t: TypeDef, n: nat, expr: Expr, relation: string, avoided: set<string>, a: string)
    requires Occurs(t, n, expr, relation, avoided) && !Occurs(t, n, expr, relation, avoided + {a})
    ensures Occurs(t, n, RuleTerm(a), relation, avoided)
    decreases n, expr
  {
    match expr
    case RuleTerm(b) =>
      if b != a {
        OccursThrough(t, n - 1, t.rules[b], relation, avoided, a);
        OccursMono(t, n - 1, n, RuleTerm(a), relation, avoided);
      }
    case Union(terms) =>
      var term :| term in terms && Occurs(t, n, term, relation, avoided);
      OccursThrough(t, n, term, relation, avoided, a);
    case Intersect(terms) =>
      var term :| term in terms && Occurs(t, n, term, relation, avoided);
      OccursThrough(t, n, term, relation, avoided, a);
    case Exclude(base, _) => OccursThrough(t, n, base, relation, avoided, a);
    case _ =>
  }

  /** A shortest occurrence uses each rule once, so the path set never hides it. */
  lemma {:induction false} OccurringFeeds(t: TypeDef, n: nat, expr: Expr, relation: string, seen: set<string>)
    requires Occurs(t, n, expr, relation, seen)
    ensures ExprFeeds(t, expr, relation, seen)
    decreases n, expr
  {
    match expr
    case RuleTerm(a) =>
      if Occurs(t, n - 1, t.rules[a], relation, seen + {a}) {
        OccurringFeeds(t, n - 1, t.rules[a], relation, seen + {a});
      } else {
        OccursThrough(t, n - 1, t.rules[a], relation, seen, a);
        OccurringFeeds(t, n - 1, expr, relation, seen);
      }
    case Union(terms) =>
      var term :| term in terms && Occurs(t, n, term, relation, seen);
      OccurringFeeds(t, n, term, relation, seen);
    case Intersect(terms) =>
      var term :| term in terms && Occurs(t, n, term, relation, seen);
      OccurringFeeds(t, n, term, relation, seen);
    case Exclude(base, _) => OccurringFeeds(t, n, base, relation, seen);
    case _ =>
  }

  lemma {:induction false} FeedingOccurs(t: TypeDef, expr: Expr, relation: string, seen: set<string>) returns (n: nat)
    requires ExprFeeds(t, expr, relation, seen)
    ensures Occurs(t, n, expr, relation, {})
    decreases t.rules.Keys - seen, expr
  {
    n := 0;
    match expr
    case RuleTerm(a) =>
      assert a in t.rules.Keys - seen;
      var m := FeedingOccurs(t, t.rules[a], relation, seen + {a});
      n := m + 1;
    case Union(terms) =>
      var term :| term in terms && ExprFeeds(t, term, relation, seen);
      n := FeedingOccurs(t, term, relation, seen);
    case Intersect(terms) =>
      var term :| term in terms && ExprFeeds(t, term, relation, seen);
      n := FeedingOccurs(t, term, relation, seen);
    case Exclude(base, _) =>
      n := FeedingOccurs(t, base, relation, seen);
    case _ =>
  }

  /**
   * exprFeeds holds exactly when the relation occurs, outside every subtracted
   * side, in the unfolding of the expression, whatever the rule references are.
   */
  lemma ExprFeedsIsExact(t: TypeDef, expr: Expr, relation: string)
    ensures ExprFeeds(t, expr, relation, {}) <==> exists n: nat :: Occurs(t, n, expr, relation, {})
  {
    if ExprFeeds(t, expr, relation, {}) {
      var n := FeedingOccurs(t, expr, relation, {});
      assert Occurs(t, n, expr, relation, {});
    }
    if n: nat :| Occurs(t, n, expr, relation, {}) {
      OccurringFeeds(t, n, expr, relation, {});
    }
  }

  // ---- What a validated schema guarantees the walk ----

  lemma {:induction false} ValidExprIsClean(schema: Schema, t: TypeDef, expr: Expr)
    requires ValidExpr(schema, t, expr)
    ensures Bounds.Resolved(expr) && Inhabited(expr)
    decreases expr
  {
    match expr
    case Union(terms) =>
      forall term | term in terms ensures Bounds.Resolved(term) && Inhabited(term) {
        ValidExprIsClean(schema, t, term);
      }
    case Intersect(terms) =>
      forall term | term in terms ensures Bounds.Resolved(term) && Inhabited(term) {
        ValidExprIsClean(schema, t, term);
      }
    case Exclude(base, subtract) =>
      ValidExprIsClean(schema, t, base);
      ValidExprIsClean(schema, t, subtract);
    case _ =>
  }

  /** A validated schema has no bare word, no empty intersection and no rule cycle, and nothing in it goes by two names. */
  lemma ValidatedSchemaIsClean(schema: Schema)
    requires ValidSchema(schema)
    ensures Bounds.AllResolved(schema) && InhabitedSchema(schema)
    ensures forall typ :: typ in schema.types ==> Acyclic(schema.types[typ]) && schema.types[typ].name == typ
    ensures forall rel :: rel in schema.relations ==> schema.relations[rel].name == rel
    ensures !Text.Blank(schema.namespace) && Sorting.Distinct(schema.actions)
  {
    forall typ, a | typ in schema.types && a in schema.types[typ].rules
      ensures Bounds.Resolved(schema.types[typ].rules[a]) && Inhabited(schema.types[typ].rules[a])
    {
      ValidExprIsClean(schema, schema.types[typ], schema.types[typ].rules[a]);
    }
    forall typ | typ in schema.types ensures Acyclic(schema.types[typ]) {
      RuleCycleCheckDecides(schema.types[typ]);
    }
  }

  /** An arrow of a validated rule crossing a writable edge arrives at a type that answers it. */
  lemma ArrowsAreAnswered(schema: Schema, env: Env, typ: string, arrow: Expr, ed: Edge)
    requires ValidSchema(schema) && env.schema == schema
    requires typ in schema.types && arrow.ArrowTerm? && ValidExpr(schema, schema.types[typ], arrow)
    requires Writable(schema, ed) && ed.obj.typ == typ && ed.relation == arrow.relation
    ensures Declared(env, arrow)
    ensures var g := GoalOf(env, arrow, ed);
            ed.subject.node.typ in schema.types && ValidExpr(schema, schema.types[ed.subject.node.typ], g.term)
  {
    var targets := schema.types[typ].relations[arrow.relation];
    var spec :| spec in targets && TargetAllows(spec, ed.subject);
    assert ValidRelations(schema, schema.types[typ]);
    assert ValidTarget(schema, spec);
    assert Answers(schema, spec.typ, arrow.target);
  }
}
