/**
 * What the answers of Check mean (core/reach/walk.go:112-185).
 */
module CheckTheorems {
  import opened Wrappers
  import opened Graph
  import opened Schemas
  import opened Walk
  import opened Semantics
  import opened Soundness
  import opened Exactness
  import opened Checks
  import opened Paths
  import Grounding
  import Bounds

  /** The subject reaches the action on the resource: the least fixed point of the rules. */
  ghost predicate May(env: Env, resource: NodeRef, action: string) {
    Derivable(env, resource, RuleTerm(action))
  }

  lemma MayIsRuleDerivable(env: Env, resource: NodeRef, action: string)
    ensures May(env, resource, action) <==>
            env.schema.HasRule(resource.typ, action) && Derivable(env, resource, env.schema.Rule(resource.typ, action))
  {
    DerivableIsFixedPoint(env, resource, RuleTerm(action));
  }

  /** One rule, asked by a fresh run, in the additive fragment. */
  lemma AskDecides(env: Env, actions: iset<string>, resource: NodeRef, action: string)
    requires AdditiveOn(env.schema, actions) && action in actions
    requires env.schema.HasRule(resource.typ, action)
    ensures var r := AskRule(env, resource, action);
            !r.out.Failed? ==> (r.out.Matched? <==> May(env, resource, action)) && (r.out.Missed? ==> !r.memo.excluded)
  {
    var expr := env.schema.Rule(resource.typ, action);
    var r := AskRule(env, resource, action);
    MayIsRuleDerivable(env, resource, action);
    if r.out.Missed? {
      MissIsUnderivable(env, actions, resource, expr, 0, EMPTY_MEMO);
      MissSettles(env, actions, {}, resource, expr, 0, EMPTY_MEMO);
    }
    if r.out.Matched? {
      MatchIsEarned(env, resource, expr, 0, EMPTY_MEMO);
      assert Keeps(env, env, r.out.path);
    }
  }

  lemma {:induction false} ReachedDecides(env: Env, actions: iset<string>, resource: NodeRef, asked: seq<string>)
    requires AdditiveOn(env.schema, actions)
    requires forall a :: a in asked ==> a in actions && env.schema.HasRule(resource.typ, a)
    ensures var r := ReachedBy(env, resource, asked);
            r.Ok? ==> (r.value <==> exists a :: a in asked && May(env, resource, a))
  {
    if asked != [] {
      AskDecides(env, actions, resource, asked[0]);
      assert forall a :: a in asked <==> a == asked[0] || a in asked[1..];
      ReachedDecides(env, actions, resource, asked[1..]);
    }
  }

  /** The decision an additive schema calls for, stated without the walk. */
  ghost predicate Expected(env: Env, req: Request, d: Decision) {
    && (d.allowed <==> May(env, req.resource, req.action))
    && (d.reason == if May(env, req.resource, req.action) then ReasonAllowed
                    else if exists a :: May(env, req.resource, a) then ReasonNoRule
                    else ReasonUnreachable)
  }

  /**
   * With only relations, rule references, arrows and unions, a check that returns
   * without error is exactly the least fixed point, cyclic data included, and its
   * reason separates "no rule of the type" from "another rule only".
   */
  lemma CheckDecidesReachability(e: Evaluator, req: Request, now: int)
    requires Additive(e.schema)
    ensures var r := CheckSpec(e, req, now);
            r.Ok? ==> Expected(EnvOf(e, req.subject, now), req, r.value)
  {
    var env := EnvOf(e, req.subject, now);
    var typ := req.resource.typ;
    if CheckSpec(e, req, now).Ok? {
      if env.schema.HasRule(typ, req.action) {
        AskDecides(env, EVERY_ACTION, req.resource, req.action);
      }
      var others := OtherActions(env.schema, typ, req.action);
      ReachedDecides(env, EVERY_ACTION, req.resource, others);
      forall a | May(env, req.resource, a) ensures a == req.action || a in others {
        MayIsRuleDerivable(env, req.resource, a);
      }
    }
  }

  /** An action whose rules are additive is decided even where other rules of the schema subtract. */
  lemma CheckDecidesAdditiveAction(e: Evaluator, actions: iset<string>, req: Request, now: int)
    requires AdditiveOn(e.schema, actions) && req.action in actions
    ensures var r := CheckSpec(e, req, now);
            r.Ok? ==> (r.value.allowed <==> May(EnvOf(e, req.subject, now), req.resource, req.action))
  {
    var env := EnvOf(e, req.subject, now);
    if CheckSpec(e, req, now).Ok? {
      if env.schema.HasRule(req.resource.typ, req.action) {
        AskDecides(env, actions, req.resource, req.action);
      } else {
        MayIsRuleDerivable(env, req.resource, req.action);
      }
    }
  }

  // ---- Order, growth, evidence and the bound ----

  /** Every edge of one resolver is an edge of the other. */
  ghost predicate Extends(e: Evaluator, more: Evaluator) {
    && more.schema == e.schema
    && forall obj: NodeRef, rel: string, ed :: ed in e.edges(obj, rel) ==> ed in more.edges(obj, rel)
  }

  /** Derivations only use that edges exist, so they survive in a larger store. */
  lemma {:induction false} DerivesGrows(env: Env, more: Env, n: nat, obj: NodeRef, expr: Expr)
    requires SameQuery(env, more)
    requires forall o: NodeRef, rel: string, ed :: ed in env.edges(o, rel) ==> ed in more.edges(o, rel)
    requires Derives(env, n, obj, expr)
    ensures Derives(more, n, obj, expr)
    decreases n, expr
  {
    match expr
    case RuleTerm(a) => DerivesGrows(env, more, n - 1, obj, env.schema.Rule(obj.typ, a));
    case Union(terms) =>
      var t :| t in terms && Derives(env, n, obj, t);
      DerivesGrows(env, more, n, obj, t);
    case Intersect(terms) =>
      forall t | t in terms ensures Derives(more, n, obj, t) {
        DerivesGrows(env, more, n, obj, t);
      }
    case Exclude(base, _) => DerivesGrows(env, more, n, obj, base);
    case IdentTerm(_) =>
    case _ =>
      var ed :| Live(env, obj, expr, ed) && GoalDerives(env, n - 1, GoalOf(env, expr, ed));
      var g := GoalOf(env, expr, ed);
      assert Live(more, obj, expr, ed) && GoalOf(more, expr, ed) == g;
      if g.Ask? {
        DerivesGrows(env, more, n - 1, g.node, g.term);
      }
      assert GoalDerives(more, n - 1, g);
  }

  lemma MayGrows(env: Env, more: Env, resource: NodeRef, action: string)
    requires SameQuery(env, more)
    requires forall o: NodeRef, rel: string, ed :: ed in env.edges(o, rel) ==> ed in more.edges(o, rel)
    requires May(env, resource, action)
    ensures May(more, resource, action)
  {
    var n: nat :| Derives(env, n, resource, RuleTerm(action));
    DerivesGrows(env, more, n, resource, RuleTerm(action));
  }

  /** Adding edges never revokes. */
  lemma AddingEdgesNeverRevokes(e: Evaluator, more: Evaluator, req: Request, now: int)
    requires Additive(e.schema) && Extends(e, more)
    requires CheckSpec(e, req, now).Ok? && CheckSpec(more, req, now).Ok?
    ensures CheckSpec(e, req, now).value.allowed ==> CheckSpec(more, req, now).value.allowed
  {
    CheckDecidesReachability(e, req, now);
    CheckDecidesReachability(more, req, now);
    var env, wide := EnvOf(e, req.subject, now), EnvOf(more, req.subject, now);
    if May(env, req.resource, req.action) {
      MayGrows(env, wide, req.resource, req.action);
    }
  }

  /** Two resolvers with the same edges in any order, and any bounds, give the same answer and reason. */
  lemma EdgeOrderIsIrrelevant(e: Evaluator, other: Evaluator, req: Request, now: int)
    requires Additive(e.schema) && Extends(e, other) && Extends(other, e)
    requires CheckSpec(e, req, now).Ok? && CheckSpec(other, req, now).Ok?
    ensures CheckSpec(e, req, now).value.allowed == CheckSpec(other, req, now).value.allowed
    ensures CheckSpec(e, req, now).value.reason == CheckSpec(other, req, now).value.reason
  {
    CheckDecidesReachability(e, req, now);
    CheckDecidesReachability(other, req, now);
    var env, env2 := EnvOf(e, req.subject, now), EnvOf(other, req.subject, now);
    forall a ensures May(env, req.resource, a) <==> May(env2, req.resource, a) {
      if May(env, req.resource, a) { MayGrows(env, env2, req.resource, a); }
      if May(env2, req.resource, a) { MayGrows(env2, env, req.resource, a); }
    }
  }

  /** Every step of an allowing path is an active edge, in any schema. */
  lemma AllowedPathIsReal(e: Evaluator, req: Request, now: int)
    ensures var r := CheckSpec(e, req, now);
            r.Ok? && r.value.allowed ==>
              forall step :: step in r.value.path ==> Witnessed(EnvOf(e, req.subject, now), step)
  {
    var env := EnvOf(e, req.subject, now);
    if env.schema.HasRule(req.resource.typ, req.action) {
      MatchIsEarned(env, req.resource, env.schema.Rule(req.resource.typ, req.action), 0, EMPTY_MEMO);
    }
  }

  /** In an additive schema the path runs unbroken from the resource to the caller. */
  lemma AllowedPathIsAChain(e: Evaluator, req: Request, now: int)
    requires Additive(e.schema) && Honest(EnvOf(e, req.subject, now))
    ensures var r := CheckSpec(e, req, now);
            r.Ok? && r.value.allowed ==> Chain(EnvOf(e, req.subject, now), req.resource, r.value.path)
  {
    var env := EnvOf(e, req.subject, now);
    if env.schema.HasRule(req.resource.typ, req.action) {
      MatchChains(env, EVERY_ACTION, req.resource, env.schema.Rule(req.resource.typ, req.action), 0, EMPTY_MEMO);
    }
  }

  /** Asked again over any resolver that keeps the edges of the path, the answer is still yes. */
  lemma AllowedPathSuffices(e: Evaluator, other: Evaluator, req: Request, now: int)
    requires Additive(e.schema)
    requires CheckSpec(e, req, now).Ok? && CheckSpec(e, req, now).value.allowed
    requires Keeps(EnvOf(e, req.subject, now), EnvOf(other, req.subject, now), CheckSpec(e, req, now).value.path)
    requires CheckSpec(other, req, now).Ok?
    ensures CheckSpec(other, req, now).value.allowed
  {
    var env, kept := EnvOf(e, req.subject, now), EnvOf(other, req.subject, now);
    var expr := env.schema.Rule(req.resource.typ, req.action);
    MatchIsEarned(env, req.resource, expr, 0, EMPTY_MEMO);
    assert Derivable(kept, req.resource, expr);
    MayIsRuleDerivable(kept, req.resource, req.action);
    CheckDecidesReachability(other, req, now);
  }

  lemma {:induction false} ReachedUnderLargerBound(env: Env, bound: nat, resource: NodeRef, asked: seq<string>)
    requires env.maxDepth <= bound
    requires forall a :: a in asked ==> env.schema.HasRule(resource.typ, a)
    requires ReachedBy(env, resource, asked).Ok?
    ensures ReachedBy(env.(maxDepth := bound), resource, asked) == ReachedBy(env, resource, asked)
  {
    if asked != [] {
      Bounds.LargerBound(env, bound, resource, env.schema.Rule(resource.typ, asked[0]), 0, EMPTY_MEMO);
      assert forall a :: a in asked[1..] ==> a in asked;
      if AskRule(env, resource, asked[0]).out.Missed? {
        ReachedUnderLargerBound(env, bound, resource, asked[1..]);
      }
    }
  }

  /** A decision made under one bound is made, path and reason included, under every larger one. */
  lemma DecisionSurvivesLargerBound(e: Evaluator, bound: nat, req: Request, now: int)
    requires e.maxDepth <= bound
    requires CheckSpec(e, req, now).Ok?
    ensures CheckSpec(e.(maxDepth := bound), req, now) == CheckSpec(e, req, now)
  {
    var env := EnvOf(e, req.subject, now);
    var wide := EnvOf(e.(maxDepth := bound), req.subject, now);
    assert wide == env.(maxDepth := bound);
    if env.schema.HasRule(req.resource.typ, req.action) {
      Bounds.LargerBound(env, bound, req.resource, env.schema.Rule(req.resource.typ, req.action), 0, EMPTY_MEMO);
      var r := AskRule(env, req.resource, req.action);
      if r.out.Missed? && !r.memo.excluded {
        ReachedUnderLargerBound(env, bound, req.resource, OtherActions(env.schema, req.resource.typ, req.action));
      }
    } else {
      ReachedUnderLargerBound(env, bound, req.resource, OtherActions(env.schema, req.resource.typ, req.action));
    }
  }

  // ---- The whole grammar on grounded data ----

  /** The compositional meaning of an action on a resource, unfolded n times. */
  ghost predicate Means(env: Env, n: nat, resource: NodeRef, action: string) {
    env.schema.HasRule(resource.typ, action) && Grounding.Holds(env, n, resource, env.schema.Rule(resource.typ, action))
  }

  /** No rule of the resource's type depends on itself through the data. */
  ghost predicate GroundedResource(env: Env, n: nat, resource: NodeRef) {
    forall a :: env.schema.HasRule(resource.typ, a) ==> Grounding.Grounded(env, n, resource, env.schema.Rule(resource.typ, a))
  }

  lemma AskMeans(env: Env, n: nat, resource: NodeRef, action: string)
    requires GroundedResource(env, n, resource) && env.schema.HasRule(resource.typ, action)
    ensures var r := AskRule(env, resource, action);
            !r.out.Failed? ==> (r.out.Matched? <==> Means(env, n, resource, action))
  {
    Grounding.WalkIsRight(env, n, resource, env.schema.Rule(resource.typ, action), 0, EMPTY_MEMO);
  }

  lemma {:induction false} ReachedMeans(env: Env, n: nat, resource: NodeRef, asked: seq<string>)
    requires GroundedResource(env, n, resource)
    requires forall a :: a in asked ==> env.schema.HasRule(resource.typ, a)
    ensures var r := ReachedBy(env, resource, asked);
            r.Ok? ==> (r.value <==> exists a :: a in asked && Means(env, n, resource, a))
  {
    if asked != [] {
      AskMeans(env, n, resource, asked[0]);
      assert forall a :: a in asked <==> a == asked[0] || a in asked[1..];
      ReachedMeans(env, n, resource, asked[1..]);
    }
  }

  /** The rule of the action meets a subtraction that takes something away before its outcome is decided. */
  ghost predicate TakenAway(env: Env, n: nat, resource: NodeRef, action: string) {
    env.schema.HasRule(resource.typ, action) && Grounding.Removes(env, n, resource, env.schema.Rule(resource.typ, action))
  }

  /** The decision and reason the compositional meaning calls for, stated without the walk. */
  ghost predicate Deserved(env: Env, n: nat, req: Request, d: Decision) {
    && (d.allowed <==> Means(env, n, req.resource, req.action))
    && (d.reason == if Means(env, n, req.resource, req.action) then ReasonAllowed
                    else if TakenAway(env, n, req.resource, req.action) then ReasonExcluded
                    else if exists a :: Means(env, n, req.resource, a) then ReasonNoRule
                    else ReasonUnreachable)
  }

  /**
   * For every schema, subtraction and intersection included, over data with no
   * cycle below the resource: a check that returns without error allows exactly
   * what the rule means, and its reason is exactly the one deserved.
   */
  lemma CheckDecidesMeaning(e: Evaluator, n: nat, req: Request, now: int)
    requires GroundedResource(EnvOf(e, req.subject, now), n, req.resource)
    ensures var r := CheckSpec(e, req, now);
            r.Ok? ==> Deserved(EnvOf(e, req.subject, now), n, req, r.value)
  {
    var env := EnvOf(e, req.subject, now);
    if CheckSpec(e, req, now).Ok? {
      if env.schema.HasRule(req.resource.typ, req.action) {
        AskMeans(env, n, req.resource, req.action);
        Grounding.FlagIsExact(env, n, req.resource, env.schema.Rule(req.resource.typ, req.action), 0, EMPTY_MEMO);
      }
      ReachedMeans(env, n, req.resource, OtherActions(env.schema, req.resource.typ, req.action));
    }
  }

  // ---- Over finitely many edges the check is total from some bound on ----

  /** A bound at which no check of this resource can fail. */
  ghost predicate Ample(e: Evaluator, store: set<Edge>, resource: NodeRef) {
    forall a :: e.schema.HasRule(resource.typ, a) ==>
      |Bounds.Questions(e.schema, store, resource, e.schema.Rule(resource.typ, a))| <= e.maxDepth
  }

  lemma {:induction false} ReachedNeverFails(env: Env, resource: NodeRef, asked: seq<string>)
    requires forall a :: a in asked ==> env.schema.HasRule(resource.typ, a) && !AskRule(env, resource, a).out.Failed?
    ensures ReachedBy(env, resource, asked).Ok?
  {
    if asked != [] {
      assert asked[0] in asked;
      assert forall a :: a in asked[1..] ==> a in asked;
      ReachedNeverFails(env, resource, asked[1..]);
    }
  }

  /**
   * Over finitely many edges, cyclic or not, a check of a well-formed request
   * under an ample bound always returns a decision.
   */
  lemma AmpleBoundAlwaysDecides(e: Evaluator, store: set<Edge>, req: Request, now: int)
    requires Bounds.FiniteEdges(EnvOf(e, req.subject, now), store) && Bounds.AllResolved(e.schema) && Ample(e, store, req.resource)
    requires Defect(e.schema, req).None?
    ensures CheckSpec(e, req, now).Ok?
  {
    var env := EnvOf(e, req.subject, now);
    forall a | env.schema.HasRule(req.resource.typ, a) ensures !AskRule(env, req.resource, a).out.Failed? {
      var body := env.schema.Rule(req.resource.typ, a);
      assert Bounds.Resolved(env.schema.types[req.resource.typ].rules[a]);
      Bounds.EnoughDepthNeverFails(env, store, req.resource, body);
    }
    ReachedNeverFails(env, req.resource, OtherActions(env.schema, req.resource.typ, req.action));
  }
}
