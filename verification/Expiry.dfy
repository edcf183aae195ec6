/**
 * Expiring edges (core/reach/graph.go:85-107): a check at an instant is a check
 * over the edges that stand at that instant, and time only takes away.
 */
module Expiry {
  import opened Wrappers
  import opened Graph
  import opened Schemas
  import opened Walk
  import opened Semantics
  import opened Soundness
  import opened Exactness
  import opened Checks
  import opened CheckTheorems

  /** The edges without an expiry or with a later one, in order, the expiry dropped. */
  function Standings(edges: seq<Edge>, now: int): seq<Edge> {
    if edges == [] then []
    else if edges[0].expiresAt.None? || now < edges[0].expiresAt.value then
      [edges[0].(expiresAt := None)] + Standings(edges[1..], now)
    else Standings(edges[1..], now)
  }

  /** The resolver that returns what stands at the instant, for ever. */
  function Frozen(e: Evaluator, now: int): Evaluator {
    e.(edges := (obj: NodeRef, rel: string) => Standings(e.edges(obj, rel), now))
  }

  /** The same query over what stands. */
  ghost predicate Freezes(env: Env, other: Env) {
    && other.schema == env.schema && other.subject == env.subject && other.maxDepth == env.maxDepth
    && forall obj: NodeRef, rel: string :: other.edges(obj, rel) == Standings(env.edges(obj, rel), env.now)
  }

  lemma {:induction false} StandingsJoin(a: seq<Edge>, b: seq<Edge>, now: int)
    ensures Standings(a + b, now) == Standings(a, now) + Standings(b, now)
    decreases |a|
  {
    if a == [] {
      assert a + b == b;
    } else {
      assert (a + b)[1..] == a[1..] + b;
      StandingsJoin(a[1..], b, now);
    }
  }

  lemma FrozenEdges(env: Env, other: Env, obj: NodeRef, term: Expr)
    requires Freezes(env, other) && Declared(env, term)
    ensures OutEdges(other, obj, term) == Standings(OutEdges(env, obj, term), env.now)
  {
    StandingsJoin(env.edges(obj, term.relation), env.edges(Star(obj.typ), term.relation), env.now);
  }

  /** Over what stands the walk gives the same answer, path and memo. */
  lemma {:induction false} FrozenWalk(env: Env, other: Env, obj: NodeRef, expr: Expr, depth: nat, memo: Memo)
    requires Freezes(env, other)
    ensures Satisfies(other, obj, expr, depth, memo) == Satisfies(env, obj, expr, depth, memo)
    decreases Room(env, depth), Unentered(env, obj, memo), expr, 1
  {
    if depth > env.maxDepth { return; }
    match expr
    case IdentTerm(_) =>
    case Union(terms) => FrozenAny(env, other, obj, terms, depth, memo);
    case Intersect(terms) => FrozenAll(env, other, obj, terms, depth, memo);
    case Exclude(base, subtract) =>
      FrozenWalk(env, other, obj, base, depth, memo);
      var b := Satisfies(env, obj, base, depth, memo);
      if b.out.Matched? {
        FrozenWalk(env, other, obj, subtract, depth, b.memo);
      }
    case RuleTerm(a) =>
      var entered := Opened(memo, Key(obj, expr));
      if Key(obj, expr) !in memo.marks && env.schema.HasRule(obj.typ, a) {
        assert a in Unentered(env, obj, memo);
        assert Unentered(env, obj, entered) < Unentered(env, obj, memo);
        FrozenWalk(env, other, obj, env.schema.Rule(obj.typ, a), depth, entered);
      }
    case RelationTerm(_) => FrozenTerm(env, other, obj, expr, depth, memo);
    case ArrowTerm(_, _) => FrozenTerm(env, other, obj, expr, depth, memo);
  }

  lemma {:induction false} FrozenTerm(env: Env, other: Env, obj: NodeRef, term: Expr, depth: nat, memo: Memo)
    requires term.RelationTerm? || term.ArrowTerm?
    requires Freezes(env, other) && depth <= env.maxDepth
    ensures Satisfies(other, obj, term, depth, memo) == Satisfies(env, obj, term, depth, memo)
    decreases 2 * (env.maxDepth - depth) + 1, 1
  {
    var key := Key(obj, term);
    TermAnswer(env, obj, term, depth, memo);
    TermAnswer(other, obj, term, depth, memo);
    if key !in memo.marks && Declared(env, term) {
      FrozenEdges(env, other, obj, term);
      FrozenFollow(env, other, term, OutEdges(env, obj, term), depth, Opened(memo, key));
    }
  }

  lemma {:induction false} FrozenFollow(env: Env, other: Env, term: Expr, edges: seq<Edge>, depth: nat, memo: Memo)
    requires Freezes(env, other) && Declared(env, term) && depth <= env.maxDepth
    ensures Follow(other, term, Standings(edges, env.now), depth, memo) == Follow(env, term, edges, depth, memo)
    decreases 2 * (env.maxDepth - depth) + 1, 0, |edges|
  {
    if edges == [] { return; }
    var ed := edges[0];
    var rest := Standings(edges[1..], env.now);
    if ed.expiresAt.None? || env.now < ed.expiresAt.value {
      var kept := ed.(expiresAt := None);
      var all := Standings(edges, env.now);
      assert all[0] == kept && all[1..] == rest;
      var g := GoalOf(env, term, ed);
      assert GoalOf(other, term, kept) == g && StepOf(kept) == StepOf(ed);
      if g.Ask? {
        FrozenWalk(env, other, g.node, g.term, depth + 1, memo);
        var a := Satisfies(env, g.node, g.term, depth + 1, memo);
        if a.out.Missed? {
          FrozenFollow(env, other, term, edges[1..], depth, a.memo);
        }
      } else if g.Nothing? {
        FrozenFollow(env, other, term, edges[1..], depth, memo);
      }
    } else {
      FrozenFollow(env, other, term, edges[1..], depth, memo);
    }
  }

  lemma {:induction false} FrozenAny(env: Env, other: Env, obj: NodeRef, terms: seq<Expr>, depth: nat, memo: Memo)
    requires Freezes(env, other)
    ensures AnyOf(other, obj, terms, depth, memo) == AnyOf(env, obj, terms, depth, memo)
    decreases Room(env, depth), Unentered(env, obj, memo), terms, 0
  {
    if terms == [] { return; }
    FrozenWalk(env, other, obj, terms[0], depth, memo);
    var a := Satisfies(env, obj, terms[0], depth, memo);
    if a.out.Missed? {
      FrozenAny(env, other, obj, terms[1..], depth, a.memo);
    }
  }

  lemma {:induction false} FrozenAll(env: Env, other: Env, obj: NodeRef, terms: seq<Expr>, depth: nat, memo: Memo)
    requires Freezes(env, other)
    ensures AllOf(other, obj, terms, depth, memo) == AllOf(env, obj, terms, depth, memo)
    decreases Room(env, depth), Unentered(env, obj, memo), terms, 0
  {
    if terms == [] { return; }
    FrozenWalk(env, other, obj, terms[0], depth, memo);
    var a := Satisfies(env, obj, terms[0], depth, memo);
    if a.out.Matched? {
      FrozenAll(env, other, obj, terms[1..], depth, a.memo);
    }
  }

  lemma {:induction false} FrozenReached(env: Env, other: Env, resource: NodeRef, actions: seq<string>)
    requires Freezes(env, other)
    requires forall a :: a in actions ==> env.schema.HasRule(resource.typ, a)
    ensures ReachedBy(other, resource, actions) == ReachedBy(env, resource, actions)
  {
    if actions != [] {
      assert forall a :: a in actions[1..] ==> a in actions;
      FrozenWalk(env, other, resource, env.schema.Rule(resource.typ, actions[0]), 0, EMPTY_MEMO);
      FrozenReached(env, other, resource, actions[1..]);
    }
  }

  /**
   * A check at an instant decides, with reason and path, what a check at any
   * instant decides over exactly the edges that have not expired, their expiry
   * removed. Holds for every schema and all data.
   */
  lemma CheckSeesWhatStands(e: Evaluator, req: Request, now: int, whenever: int)
    ensures CheckSpec(Frozen(e, now), req, whenever) == CheckSpec(e, req, now)
  {
    var env, other := EnvOf(e, req.subject, now), EnvOf(Frozen(e, now), req.subject, whenever);
    assert Freezes(env, other);
    if env.schema.HasRule(req.resource.typ, req.action) {
      FrozenWalk(env, other, req.resource, env.schema.Rule(req.resource.typ, req.action), 0, EMPTY_MEMO);
    }
    FrozenReached(env, other, req.resource, OtherActions(e.schema, req.resource.typ, req.action));
  }

  /** What is derivable at an instant was derivable at every earlier one: no edge stands later only. */
  lemma {:induction false} DerivesEarlier(env: Env, earlier: int, n: nat, obj: NodeRef, expr: Expr)
    requires earlier <= env.now && Derives(env, n, obj, expr)
    ensures Derives(env.(now := earlier), n, obj, expr)
    decreases n, expr
  {
    var before := env.(now := earlier);
    if expr.RuleTerm? {
      DerivesEarlier(env, earlier, n - 1, obj, env.schema.Rule(obj.typ, expr.action));
    } else if expr.Union? {
      var t :| t in expr.terms && Derives(env, n, obj, t);
      DerivesEarlier(env, earlier, n, obj, t);
    } else if expr.Intersect? {
      forall t | t in expr.terms ensures Derives(before, n, obj, t) {
        DerivesEarlier(env, earlier, n, obj, t);
      }
    } else if expr.Exclude? {
      DerivesEarlier(env, earlier, n, obj, expr.base);
    } else if expr.RelationTerm? || expr.ArrowTerm? {
      var ed :| Live(env, obj, expr, ed) && GoalDerives(env, n - 1, GoalOf(env, expr, ed));
      var g := GoalOf(env, expr, ed);
      assert Live(before, obj, expr, ed) && GoalOf(before, expr, ed) == g;
      if g.Ask? {
        DerivesEarlier(env, earlier, n - 1, g.node, g.term);
      }
      assert GoalDerives(before, n - 1, g);
    }
  }

  /**
   * In additive schemas time only revokes: what is allowed at a later instant over
   * the same edges is derivable at every earlier one, and allowed there by every
   * check that returns.
   */
  lemma TimeOnlyRevokes(e: Evaluator, req: Request, earlier: int, later: int)
    requires Additive(e.schema) && earlier <= later
    requires CheckSpec(e, req, later).Ok? && CheckSpec(e, req, later).value.allowed
    ensures May(EnvOf(e, req.subject, earlier), req.resource, req.action)
    ensures CheckSpec(e, req, earlier).Ok? ==> CheckSpec(e, req, earlier).value.allowed
  {
    var env := EnvOf(e, req.subject, later);
    CheckDecidesReachability(e, req, later);
    CheckDecidesReachability(e, req, earlier);
    var n: nat :| Derives(env, n, req.resource, RuleTerm(req.action));
    DerivesEarlier(env, earlier, n, req.resource, RuleTerm(req.action));
    assert EnvOf(e, req.subject, earlier) == env.(now := earlier);
  }
}
