/**
 * In a schema of relations, rule references, arrows and unions the returned path
 * is one unbroken chain from the resource to the caller
 * (core/reach/walk.go:295-372, 386-417).
 */
module Paths {
  import opened Graph
  import opened Schemas
  import opened Walk
  import opened Exactness

  /** A lookup returns only edges out of the node and relation it was asked about. */
  ghost predicate Honest(env: Env) {
    forall obj: NodeRef, rel: string, ed :: ed in env.edges(obj, rel) ==> ed.obj == obj && ed.relation == rel
  }

  /** The step leaves the node itself, or its type's star node. */
  predicate Departs(step: Step, node: NodeRef) {
    step.obj == node || step.obj == Star(node.typ)
  }

  /** Each step leaves where the one before arrived, and the last one names the caller or everyone of its type. */
  predicate Chain(env: Env, node: NodeRef, path: seq<Step>)
    decreases path
  {
    && path != []
    && Departs(path[0], node)
    && if |path| == 1 then
         !path[0].subject.IsUserset() && (path[0].subject.node == env.subject || path[0].subject.node == Star(env.subject.typ))
       else Chain(env, path[0].subject.node, path[1..])
  }

  lemma {:induction false} MatchChains(env: Env, actions: iset<string>, obj: NodeRef, expr: Expr, depth: nat, memo: Memo)
    requires Honest(env)
    requires AdditiveOn(env.schema, actions) && AdditiveExpr(actions, expr)
    ensures var r := Satisfies(env, obj, expr, depth, memo);
            r.out.Matched? ==> Chain(env, obj, r.out.path)
    decreases Room(env, depth), Unentered(env, obj, memo), expr, 1
  {
    var r := Satisfies(env, obj, expr, depth, memo);
    if !r.out.Matched? { return; }
    if expr.Union? {
      AnyMatchChains(env, actions, obj, expr.terms, depth, memo);
    } else if expr.RuleTerm? {
      var entered := Opened(memo, Key(obj, expr));
      assert expr.action in Unentered(env, obj, memo);
      assert Unentered(env, obj, entered) < Unentered(env, obj, memo);
      MatchChains(env, actions, obj, env.schema.Rule(obj.typ, expr.action), depth, entered);
    } else {
      assert r == Remember(Key(obj, expr), memo, FollowTerm(env, obj, expr, depth, memo));
      FollowedMatchChains(env, actions, obj, expr, OutEdges(env, obj, expr), depth, Opened(memo, Key(obj, expr)));
    }
  }

  lemma {:induction false} FollowedMatchChains(env: Env, actions: iset<string>, obj: NodeRef, term: Expr, edges: seq<Edge>, depth: nat, memo: Memo)
    requires Honest(env)
    requires Declared(env, term) && depth <= env.maxDepth
    requires AdditiveOn(env.schema, actions) && AdditiveExpr(actions, term)
    requires forall ed :: ed in edges ==> ed in OutEdges(env, obj, term)
    ensures var r := Follow(env, term, edges, depth, memo);
            r.out.Matched? ==> Chain(env, obj, r.out.path)
    decreases 2 * (env.maxDepth - depth) + 1, 0, |edges|
  {
    var r := Follow(env, term, edges, depth, memo);
    if edges == [] || !r.out.Matched? { return; }
    var ed := edges[0];
    assert ed in OutEdges(env, obj, term);
    assert Departs(StepOf(ed), obj);
    assert forall e :: e in edges[1..] ==> e in edges;
    var mid := memo;
    if ed.Active(env.now) {
      var g := GoalOf(env, term, ed);
      if g.Here? { return; }
      if g.Ask? {
        MatchChains(env, actions, g.node, g.term, depth + 1, memo);
        var a := Satisfies(env, g.node, g.term, depth + 1, memo);
        if a.out.Matched? {
          assert r.out.path[1..] == a.out.path;
          return;
        }
        mid := a.memo;
      }
    }
    FollowedMatchChains(env, actions, obj, term, edges[1..], depth, mid);
  }

  lemma {:induction false} AnyMatchChains(env: Env, actions: iset<string>, obj: NodeRef, terms: seq<Expr>, depth: nat, memo: Memo)
    requires Honest(env)
    requires AdditiveOn(env.schema, actions) && forall t :: t in terms ==> AdditiveExpr(actions, t)
    ensures var r := AnyOf(env, obj, terms, depth, memo);
            r.out.Matched? ==> Chain(env, obj, r.out.path)
    decreases Room(env, depth), Unentered(env, obj, memo), terms, 0
  {
    if terms == [] { return; }
    MatchChains(env, actions, obj, terms[0], depth, memo);
    var a := Satisfies(env, obj, terms[0], depth, memo);
    if a.out.Missed? {
      AnyMatchChains(env, actions, obj, terms[1..], depth, a.memo);
    }
  }
}
