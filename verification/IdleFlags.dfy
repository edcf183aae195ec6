/**
 * The schema's warning about an idle transitive flag is right: where it is given,
 * the flag changes no answer (core/reach/schema.go:405-510).
 */
module IdleFlags {
  import opened Wrappers
  import opened Graph
  import opened Schemas
  import opened Walk
  import opened Semantics
  import opened Bounds
  import opened Checks
  import opened Delegate
  import opened Validation
  import opened Merchant
  import opened Declarations
  import Delegation

  /** The schema with the relation's transitive flag the other way. */
  function Flipped(schema: Schema, rel: string): Schema
    requires rel in schema.relations
  {
    var def := schema.relations[rel];
    schema.(relations := schema.relations[rel := def.(transitive := !def.transitive)])
  }

  /** The question is not about the relation itself, and does not become one through an arrow. */
  ghost predicate Elsewhere(schema: Schema, rel: string, k: Key) {
    match k.term
    case RelationTerm(r) => r != rel
    case ArrowTerm(r, target) =>
      forall spec :: Admits(schema, k.obj.typ, r, spec) && !schema.HasRule(spec.typ, target) ==> target != rel
    case _ => true
  }

  ghost function ElsewhereKeys(schema: Schema, rel: string): iset<Key> {
    iset k | Elsewhere(schema, rel, k)
  }

  /** No term of a rule asks a relation that is nowhere bare. */
  lemma {:induction false} BareIsElsewhere(schema: Schema, rel: string, t: TypeDef, obj: NodeRef, expr: Expr)
    requires ValidSchema(schema) && obj.typ in schema.types && t == schema.types[obj.typ]
    requires Resolved(expr) && rel !in CollectBare(schema, t, expr)
    ensures Inside(ElsewhereKeys(schema, rel), obj, expr)
    decreases expr
  {
    match expr {
      case Union(terms) =>
        forall term | term in terms ensures Inside(ElsewhereKeys(schema, rel), obj, term) {
          BareIsElsewhere(schema, rel, t, obj, term);
        }
      case Intersect(terms) =>
        forall term | term in terms ensures Inside(ElsewhereKeys(schema, rel), obj, term) {
          BareIsElsewhere(schema, rel, t, obj, term);
        }
      case Exclude(base, subtract) =>
        BareIsElsewhere(schema, rel, t, obj, base);
        BareIsElsewhere(schema, rel, t, obj, subtract);
      case ArrowTerm(r, target) =>
        forall spec | Admits(schema, obj.typ, r, spec) && !schema.HasRule(spec.typ, target) ensures target != rel {
          assert ValidRelations(schema, t);
          assert ValidTarget(schema, spec);
        }
      case _ =>
    }
  }

  lemma RuleIsElsewhere(schema: Schema, rel: string, obj: NodeRef, a: string)
    requires ValidSchema(schema) && rel !in BareRelations(schema) && schema.HasRule(obj.typ, a)
    ensures Inside(ElsewhereKeys(schema, rel), obj, schema.Rule(obj.typ, a))
  {
    ValidatedSchemaIsClean(schema);
    var t := schema.types[obj.typ];
    assert Resolved(t.rules[a]);
    BareIsElsewhere(schema, rel, t, obj, t.rules[a]);
  }

  /** Over writable edges such questions only lead to such questions. */
  lemma ElsewhereIsClosed(e: Evaluator, env: Env, rel: string)
    requires OverWritable(e, env) && ValidSchema(env.schema) && rel !in BareRelations(env.schema)
    ensures ClosedUnderAsking(env, ElsewhereKeys(env.schema, rel))
  {
    var keys := ElsewhereKeys(env.schema, rel);
    forall k | k in keys ensures AsksInside(env, keys, k) {
      if k.term.RuleTerm? {
        if env.schema.HasRule(k.obj.typ, k.term.action) {
          RuleIsElsewhere(env.schema, rel, k.obj, k.term.action);
        }
      } else if Declared(env, k.term) {
        forall ed | ed in OutEdges(env, k.obj, k.term) && ed.Active(env.now) ensures EdgeInside(env, keys, k.term, ed) {
          EdgeStaysElsewhere(e, env, rel, k, ed);
        }
      }
    }
  }

  lemma EdgeStaysElsewhere(e: Evaluator, env: Env, rel: string, k: Key, ed: Edge)
    requires OverWritable(e, env) && rel !in BareRelations(env.schema)
    requires Live(env, k.obj, k.term, ed) && Elsewhere(env.schema, rel, k)
    ensures EdgeInside(env, ElsewhereKeys(env.schema, rel), k.term, ed)
  {
    var target := EdgeIsDeclared(e, env, k.obj, k.term, ed);
    if k.term.RelationTerm? && target.relation != "" {
      assert target.relation in BareRelations(env.schema);
    }
  }

  /** The same query under the flipped flag. */
  function Other(env: Env, rel: string): Env
    requires rel in env.schema.relations
  {
    env.(schema := Flipped(env.schema, rel))
  }

  lemma SameGoal(env: Env, rel: string, k: Key, ed: Edge)
    requires rel in env.schema.relations && Elsewhere(env.schema, rel, k) && Declared(env, k.term)
    ensures Declared(Other(env, rel), k.term)
    ensures GoalOf(Other(env, rel), k.term, ed) == GoalOf(env, k.term, ed)
    ensures OutEdges(Other(env, rel), k.obj, k.term) == OutEdges(env, k.obj, k.term)
  {
  }

  lemma {:induction false} SameWalk(env: Env, rel: string, obj: NodeRef, expr: Expr, depth: nat, memo: Memo)
    requires rel in env.schema.relations && ClosedUnderAsking(env, ElsewhereKeys(env.schema, rel))
    requires Inside(ElsewhereKeys(env.schema, rel), obj, expr)
    ensures Satisfies(Other(env, rel), obj, expr, depth, memo) == Satisfies(env, obj, expr, depth, memo)
    decreases Room(env, depth), Unentered(env, obj, memo), expr, 1
  {
    if depth > env.maxDepth { return; }
    match expr {
      case Union(terms) => SameAny(env, rel, obj, terms, depth, memo);
      case Intersect(terms) => SameAll(env, rel, obj, terms, depth, memo);
      case Exclude(base, subtract) =>
        SameWalk(env, rel, obj, base, depth, memo);
        var b := Satisfies(env, obj, base, depth, memo);
        if b.out.Matched? {
          SameWalk(env, rel, obj, subtract, depth, b.memo);
        }
      case RuleTerm(a) =>
        var entered := Opened(memo, Key(obj, expr));
        if Key(obj, expr) !in memo.marks && env.schema.HasRule(obj.typ, a) {
          assert AsksInside(env, ElsewhereKeys(env.schema, rel), Key(obj, expr));
          assert a in Unentered(env, obj, memo);
          assert Unentered(env, obj, entered) < Unentered(env, obj, memo);
          SameWalk(env, rel, obj, env.schema.Rule(obj.typ, a), depth, entered);
        }
      case RelationTerm(_) => SameTerm(env, rel, obj, expr, depth, memo);
      case ArrowTerm(_, _) => SameTerm(env, rel, obj, expr, depth, memo);
    }
  }

  lemma {:induction false} SameTerm(env: Env, rel: string, obj: NodeRef, term: Expr, depth: nat, memo: Memo)
    requires term.RelationTerm? || term.ArrowTerm?
    requires rel in env.schema.relations && ClosedUnderAsking(env, ElsewhereKeys(env.schema, rel))
    requires Key(obj, term) in ElsewhereKeys(env.schema, rel) && depth <= env.maxDepth
    ensures Satisfies(Other(env, rel), obj, term, depth, memo) == Satisfies(env, obj, term, depth, memo)
    decreases 2 * (env.maxDepth - depth) + 1, 1
  {
    var key := Key(obj, term);
    TermAnswer(env, obj, term, depth, memo);
    TermAnswer(Other(env, rel), obj, term, depth, memo);
    if key !in memo.marks && Declared(env, term) {
      var edges := OutEdges(env, obj, term);
      assert AsksInside(env, ElsewhereKeys(env.schema, rel), key);
      if edges != [] {
        SameGoal(env, rel, key, edges[0]);
      } else {
        SameGoal(env, rel, key, Standing(obj, rel, SubjectRef(obj, "")));
      }
      SameFollow(env, rel, key, edges, depth, Opened(memo, key));
    }
  }

  lemma {:induction false} SameFollow(env: Env, rel: string, key: Key, edges: seq<Edge>, depth: nat, memo: Memo)
    requires rel in env.schema.relations && ClosedUnderAsking(env, ElsewhereKeys(env.schema, rel))
    requires Elsewhere(env.schema, rel, key) && Declared(env, key.term) && depth <= env.maxDepth
    requires forall ed :: ed in edges && ed.Active(env.now) ==> EdgeInside(env, ElsewhereKeys(env.schema, rel), key.term, ed)
    ensures Follow(Other(env, rel), key.term, edges, depth, memo) == Follow(env, key.term, edges, depth, memo)
    decreases 2 * (env.maxDepth - depth) + 1, 0, |edges|
  {
    if edges == [] { return; }
    var ed := edges[0];
    assert ed in edges && forall x :: x in edges[1..] ==> x in edges;
    var mid := memo;
    if ed.Active(env.now) {
      var g := GoalOf(env, key.term, ed);
      SameGoal(env, rel, key, ed);
      if g.Here? { return; }
      if g.Ask? {
        SameWalk(env, rel, g.node, g.term, depth + 1, memo);
        var a := Satisfies(env, g.node, g.term, depth + 1, memo);
        if !a.out.Missed? { return; }
        mid := a.memo;
      }
    }
    SameFollow(env, rel, key, edges[1..], depth, mid);
  }

  lemma {:induction false} SameAny(env: Env, rel: string, obj: NodeRef, terms: seq<Expr>, depth: nat, memo: Memo)
    requires rel in env.schema.relations && ClosedUnderAsking(env, ElsewhereKeys(env.schema, rel))
    requires forall t :: t in terms ==> Inside(ElsewhereKeys(env.schema, rel), obj, t)
    ensures AnyOf(Other(env, rel), obj, terms, depth, memo) == AnyOf(env, obj, terms, depth, memo)
    decreases Room(env, depth), Unentered(env, obj, memo), terms, 0
  {
    if terms == [] { return; }
    SameWalk(env, rel, obj, terms[0], depth, memo);
    var a := Satisfies(env, obj, terms[0], depth, memo);
    if a.out.Missed? {
      SameAny(env, rel, obj, terms[1..], depth, a.memo);
    }
  }

  lemma {:induction false} SameAll(env: Env, rel: string, obj: NodeRef, terms: seq<Expr>, depth: nat, memo: Memo)
    requires rel in env.schema.relations && ClosedUnderAsking(env, ElsewhereKeys(env.schema, rel))
    requires forall t :: t in terms ==> Inside(ElsewhereKeys(env.schema, rel), obj, t)
    ensures AllOf(Other(env, rel), obj, terms, depth, memo) == AllOf(env, obj, terms, depth, memo)
    decreases Room(env, depth), Unentered(env, obj, memo), terms, 0
  {
    if terms == [] { return; }
    SameWalk(env, rel, obj, terms[0], depth, memo);
    var a := Satisfies(env, obj, terms[0], depth, memo);
    if a.out.Matched? {
      SameAll(env, rel, obj, terms[1..], depth, a.memo);
    }
  }

  lemma SameRules(schema: Schema, rel: string)
    requires rel in schema.relations
    ensures Flipped(schema, rel).types == schema.types && Flipped(schema, rel).actions == schema.actions
    ensures forall typ, a :: Flipped(schema, rel).HasRule(typ, a) <==> schema.HasRule(typ, a)
  {
  }

  /** The rules asked stay elsewhere. */
  ghost predicate RulesElsewhere(schema: Schema, rel: string, resource: NodeRef, actions: seq<string>) {
    forall a :: a in actions ==> schema.HasRule(resource.typ, a) && Inside(ElsewhereKeys(schema, rel), resource, schema.Rule(resource.typ, a))
  }

  lemma SameAsk(env: Env, rel: string, resource: NodeRef, a: string)
    requires rel in env.schema.relations && ClosedUnderAsking(env, ElsewhereKeys(env.schema, rel))
    requires env.schema.HasRule(resource.typ, a) && Inside(ElsewhereKeys(env.schema, rel), resource, env.schema.Rule(resource.typ, a))
    ensures Other(env, rel).schema.HasRule(resource.typ, a) && AskRule(Other(env, rel), resource, a) == AskRule(env, resource, a)
  {
    SameRules(env.schema, rel);
    SameWalk(env, rel, resource, env.schema.Rule(resource.typ, a), 0, EMPTY_MEMO);
  }

  lemma {:induction false} SameReached(env: Env, other: Env, rel: string, resource: NodeRef, actions: seq<string>)
    requires rel in env.schema.relations && ClosedUnderAsking(env, ElsewhereKeys(env.schema, rel)) && other == Other(env, rel)
    requires RulesElsewhere(env.schema, rel, resource, actions)
    requires forall a :: a in actions ==> env.schema.HasRule(resource.typ, a) && other.schema.HasRule(resource.typ, a)
    ensures ReachedBy(other, resource, actions) == ReachedBy(env, resource, actions)
  {
    if actions != [] {
      assert forall a :: a in actions[1..] ==> a in actions;
      SameAsk(env, rel, resource, actions[0]);
      SameReached(env, other, rel, resource, actions[1..]);
    }
  }

  lemma SameDecision(env: Env, rel: string, resource: NodeRef, action: string)
    requires rel in env.schema.relations && ClosedUnderAsking(env, ElsewhereKeys(env.schema, rel))
    requires forall a :: env.schema.HasRule(resource.typ, a) ==> Inside(ElsewhereKeys(env.schema, rel), resource, env.schema.Rule(resource.typ, a))
    ensures Decide(Other(env, rel), resource, action) == Decide(env, resource, action)
  {
    var other := Other(env, rel);
    SameRules(env.schema, rel);
    if env.schema.HasRule(resource.typ, action) {
      SameAsk(env, rel, resource, action);
    }
    assert other.schema.RuleNames(resource.typ) == env.schema.RuleNames(resource.typ);
    var actions := OtherActions(env.schema, resource.typ, action);
    assert OtherActions(other.schema, resource.typ, action) == actions;
    SameReached(env, other, rel, resource, actions);
  }

  /**
   * A relation of a validated schema that is nowhere evaluated on its own: flipping
   * its transitive flag changes no decision, reason, path or error, over any store
   * of writable edges.
   */
  lemma IdleFlagHasNoEffect(e: Evaluator, rel: string, req: Request, now: int)
    requires ValidSchema(e.schema) && Delegation.WritableStore(e)
    requires rel in e.schema.relations && rel !in BareRelations(e.schema)
    ensures CheckSpec(e.(schema := Flipped(e.schema, rel)), req, now) == CheckSpec(e, req, now)
  {
    var env := EnvOf(e, req.subject, now);
    ElsewhereIsClosed(e, env, rel);
    forall a | env.schema.HasRule(req.resource.typ, a)
      ensures Inside(ElsewhereKeys(env.schema, rel), req.resource, env.schema.Rule(req.resource.typ, a))
    {
      RuleIsElsewhere(env.schema, rel, req.resource, a);
    }
    SameDecision(env, rel, req.resource, req.action);
    assert EnvOf(e.(schema := Flipped(e.schema, rel)), req.subject, now) == Other(env, rel);
  }
}
