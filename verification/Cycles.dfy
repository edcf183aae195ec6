/**
 * Data whose questions have a rank is grounded: there the walk's memo is exact for
 * the whole grammar (core/reach/walk.go:272-293).
 */
module Cycles {
  import opened Wrappers
  import opened Graph
  import opened Schemas
  import opened Walk
  import opened Semantics
  import opened Grounding
  import opened Checks
  import opened CheckTheorems

  // ---- Data with a rank is grounded ----

  /** Every memoised term the expression tries has a rank below n. */
  ghost predicate Below(rank: (NodeRef, Expr) -> nat, n: nat, obj: NodeRef, expr: Expr) {
    match expr
    case Union(terms) => forall t :: t in terms ==> Below(rank, n, obj, t)
    case Intersect(terms) => forall t :: t in terms ==> Below(rank, n, obj, t)
    case Exclude(base, subtract) => Below(rank, n, obj, base) && Below(rank, n, obj, subtract)
    case IdentTerm(_) => true
    case _ => rank(obj, expr) < n
  }

  /** Every question only asks questions of a lower rank: the dependency graph has no cycle. */
  ghost predicate Ranked(env: Env, rank: (NodeRef, Expr) -> nat) {
    && (forall obj, term, ed :: Live(env, obj, term, ed) && GoalOf(env, term, ed).Ask? ==>
          Below(rank, rank(obj, term), GoalOf(env, term, ed).node, GoalOf(env, term, ed).term))
    && (forall obj: NodeRef, a :: env.schema.HasRule(obj.typ, a) ==>
          Below(rank, rank(obj, RuleTerm(a)), obj, env.schema.Rule(obj.typ, a)))
  }

  lemma {:induction false} RankedIsGrounded(env: Env, rank: (NodeRef, Expr) -> nat, n: nat, obj: NodeRef, expr: Expr)
    requires Ranked(env, rank) && Below(rank, n, obj, expr)
    ensures Grounded(env, n, obj, expr)
    decreases n, expr
  {
    match expr {
      case Union(terms) =>
        forall t | t in terms ensures Grounded(env, n, obj, t) {
          RankedIsGrounded(env, rank, n, obj, t);
        }
      case Intersect(terms) =>
        forall t | t in terms ensures Grounded(env, n, obj, t) {
          RankedIsGrounded(env, rank, n, obj, t);
        }
      case Exclude(base, subtract) =>
        RankedIsGrounded(env, rank, n, obj, base);
        RankedIsGrounded(env, rank, n, obj, subtract);
      case IdentTerm(_) =>
      case RuleTerm(a) =>
        if env.schema.HasRule(obj.typ, a) {
          BelowGrows(rank, rank(obj, expr), n - 1, obj, env.schema.Rule(obj.typ, a));
          RankedIsGrounded(env, rank, n - 1, obj, env.schema.Rule(obj.typ, a));
        }
      case RelationTerm(_) => EdgesGrounded(env, rank, n, obj, expr);
      case ArrowTerm(_, _) => EdgesGrounded(env, rank, n, obj, expr);
    }
  }

  lemma {:induction false} EdgesGrounded(env: Env, rank: (NodeRef, Expr) -> nat, n: nat, obj: NodeRef, term: Expr)
    requires Ranked(env, rank) && Below(rank, n, obj, term)
    requires term.RelationTerm? || term.ArrowTerm?
    ensures Grounded(env, n, obj, term)
    decreases n, term, 0
  {
    forall ed | Live(env, obj, term, ed) ensures GoalGrounded(env, n - 1, GoalOf(env, term, ed)) {
      var g := GoalOf(env, term, ed);
      if g.Ask? {
        BelowGrows(rank, rank(obj, term), n - 1, g.node, g.term);
        RankedIsGrounded(env, rank, n - 1, g.node, g.term);
      }
    }
  }

  lemma {:induction false} BelowGrows(rank: (NodeRef, Expr) -> nat, n: nat, m: nat, obj: NodeRef, expr: Expr)
    requires n <= m && Below(rank, n, obj, expr)
    ensures Below(rank, m, obj, expr)
    decreases expr
  {
    match expr {
      case Union(terms) =>
        forall t | t in terms ensures Below(rank, m, obj, t) { BelowGrows(rank, n, m, obj, t); }
      case Intersect(terms) =>
        forall t | t in terms ensures Below(rank, m, obj, t) { BelowGrows(rank, n, m, obj, t); }
      case Exclude(base, subtract) =>
        BelowGrows(rank, n, m, obj, base);
        BelowGrows(rank, n, m, obj, subtract);
      case IdentTerm(_) =>
      case RelationTerm(_) =>
      case RuleTerm(_) =>
      case ArrowTerm(_, _) =>
    }
  }

  /** On ranked data every check that returns decides the compositional meaning, reason included. */
  lemma AcyclicCheckDecidesMeaning(e: Evaluator, rank: (NodeRef, Expr) -> nat, n: nat, req: Request, now: int)
    requires Ranked(EnvOf(e, req.subject, now), rank)
    requires forall a :: e.schema.HasRule(req.resource.typ, a) ==> Below(rank, n, req.resource, e.schema.Rule(req.resource.typ, a))
    ensures var r := CheckSpec(e, req, now);
            r.Ok? ==> Deserved(EnvOf(e, req.subject, now), n, req, r.value)
  {
    var env := EnvOf(e, req.subject, now);
    forall a | env.schema.HasRule(req.resource.typ, a)
      ensures Grounded(env, n, req.resource, env.schema.Rule(req.resource.typ, a))
    {
      RankedIsGrounded(env, rank, n, req.resource, env.schema.Rule(req.resource.typ, a));
    }
    CheckDecidesMeaning(e, n, req, now);
  }
}
