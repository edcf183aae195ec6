/** What a rule means, said without a memo, an order or a depth bound. */
module Semantics {
  import opened Graph
  import opened Schemas
  import opened Walk

  /** An edge the walk may cross from this term: active, under a declared relation. */
  predicate Live(env: Env, obj: NodeRef, term: Expr, ed: Edge) {
    Declared(env, term) && ed in OutEdges(env, obj, term) && ed.Active(env.now)
  }

  // ---- The least fixed point ----

  // Derivable reads the rules as "reachability only adds"; a subtraction is read as
  // its base, so on schemas with subtraction it is an over-approximation. Grounded
  // and Holds, in Grounding, give the exact meaning of the whole grammar where the
  // data below a query has no cycle.

  /** (obj, expr) has a derivation of height at most n. */
  ghost predicate Derives(env: Env, n: nat, obj: NodeRef, expr: Expr)
    decreases n, expr
  {
    match expr
    case RelationTerm(_) => n > 0 && exists ed :: Live(env, obj, expr, ed) && GoalDerives(env, n - 1, GoalOf(env, expr, ed))
    case ArrowTerm(_, _) => n > 0 && exists ed :: Live(env, obj, expr, ed) && GoalDerives(env, n - 1, GoalOf(env, expr, ed))
    case RuleTerm(a) => n > 0 && env.schema.HasRule(obj.typ, a) && Derives(env, n - 1, obj, env.schema.Rule(obj.typ, a))
    case Union(terms) => exists t :: t in terms && Derives(env, n, obj, t)
    case Intersect(terms) => forall t :: t in terms ==> Derives(env, n, obj, t)
    case Exclude(base, _) => Derives(env, n, obj, base)
    case IdentTerm(_) => false
  }

  ghost predicate GoalDerives(env: Env, n: nat, goal: Goal)
    decreases n, goal, 0
  {
    match goal
    case Here => true
    case Nothing => false
    case Ask(node, term) => Derives(env, n, node, term)
  }

  ghost predicate Derivable(env: Env, obj: NodeRef, expr: Expr) {
    exists n: nat :: Derives(env, n, obj, expr)
  }

  lemma {:induction false} DerivesMono(env: Env, n: nat, m: nat, obj: NodeRef, expr: Expr)
    requires n <= m && Derives(env, n, obj, expr)
    ensures Derives(env, m, obj, expr)
    decreases n, expr
  {
    match expr
    case RuleTerm(a) =>
      DerivesMono(env, n - 1, m - 1, obj, env.schema.Rule(obj.typ, a));
    case Union(terms) =>
      var t :| t in terms && Derives(env, n, obj, t);
      DerivesMono(env, n, m, obj, t);
    case Intersect(terms) =>
      forall t | t in terms ensures Derives(env, m, obj, t) {
        DerivesMono(env, n, m, obj, t);
      }
    case Exclude(base, _) =>
      DerivesMono(env, n, m, obj, base);
    case IdentTerm(_) =>
    case _ =>
      var ed :| Live(env, obj, expr, ed) && GoalDerives(env, n - 1, GoalOf(env, expr, ed));
      var goal := GoalOf(env, expr, ed);
      if goal.Ask? {
        DerivesMono(env, n - 1, m - 1, goal.node, goal.term);
      }
  }

  /** One application of the rules to an interpretation. */
  ghost predicate Consequence(env: Env, holds: (NodeRef, Expr) -> bool, obj: NodeRef, expr: Expr) {
    match expr
    case RelationTerm(_) => exists ed :: Live(env, obj, expr, ed) && GoalIn(holds, GoalOf(env, expr, ed))
    case ArrowTerm(_, _) => exists ed :: Live(env, obj, expr, ed) && GoalIn(holds, GoalOf(env, expr, ed))
    case RuleTerm(a) => env.schema.HasRule(obj.typ, a) && holds(obj, env.schema.Rule(obj.typ, a))
    case Union(terms) => exists t :: t in terms && holds(obj, t)
    case Intersect(terms) => forall t :: t in terms ==> holds(obj, t)
    case Exclude(base, _) => holds(obj, base)
    case IdentTerm(_) => false
  }

  ghost predicate GoalIn(holds: (NodeRef, Expr) -> bool, goal: Goal) {
    match goal
    case Here => true
    case Nothing => false
    case Ask(node, term) => holds(node, term)
  }

  ghost function Meaning(env: Env): (NodeRef, Expr) -> bool {
    (obj, expr) => Derivable(env, obj, expr)
  }

  ghost predicate Closed(env: Env, holds: (NodeRef, Expr) -> bool) {
    forall obj, expr :: Consequence(env, holds, obj, expr) ==> holds(obj, expr)
  }

  /** Derivable lies inside every interpretation the rules do not add to. */
  lemma {:induction false} DerivableIsLeast(env: Env, holds: (NodeRef, Expr) -> bool, n: nat, obj: NodeRef, expr: Expr)
    requires Closed(env, holds)
    requires Derives(env, n, obj, expr)
    ensures holds(obj, expr)
    decreases n, expr
  {
    assert Consequence(env, holds, obj, expr) by {
      match expr
      case RuleTerm(a) =>
        DerivableIsLeast(env, holds, n - 1, obj, env.schema.Rule(obj.typ, a));
      case Union(terms) =>
        var t :| t in terms && Derives(env, n, obj, t);
        DerivableIsLeast(env, holds, n, obj, t);
      case Intersect(terms) =>
        forall t | t in terms ensures holds(obj, t) {
          DerivableIsLeast(env, holds, n, obj, t);
        }
      case Exclude(base, _) =>
        DerivableIsLeast(env, holds, n, obj, base);
      case IdentTerm(_) =>
      case _ =>
        var ed :| Live(env, obj, expr, ed) && GoalDerives(env, n - 1, GoalOf(env, expr, ed));
        var goal := GoalOf(env, expr, ed);
        if goal.Ask? {
          DerivableIsLeast(env, holds, n - 1, goal.node, goal.term);
        }
    }
  }

  /** All terms of a list have derivations of one common height. */
  lemma {:induction false} CommonHeight(env: Env, obj: NodeRef, terms: seq<Expr>) returns (n: nat)
    requires forall t :: t in terms ==> Derivable(env, obj, t)
    ensures forall t :: t in terms ==> Derives(env, n, obj, t)
  {
    if terms == [] {
      n := 0;
    } else {
      assert forall t :: t in terms[1..] ==> t in terms;
      var m := CommonHeight(env, obj, terms[1..]);
      assert terms[0] in terms;
      var k: nat :| Derives(env, k, obj, terms[0]);
      n := if m <= k then k else m;
      forall t | t in terms ensures Derives(env, n, obj, t) {
        if t == terms[0] {
          DerivesMono(env, k, n, obj, t);
        } else {
          assert t in terms[1..];
          DerivesMono(env, m, n, obj, t);
        }
      }
    }
  }

  /** Derivable is a fixed point: one more application of the rules changes nothing. */
  lemma {:induction false} DerivableIsFixedPoint(env: Env, obj: NodeRef, expr: Expr)
    ensures Derivable(env, obj, expr) <==> Consequence(env, Meaning(env), obj, expr)
  {
    var holds := Meaning(env);
    if Derivable(env, obj, expr) {
      var n: nat :| Derives(env, n, obj, expr);
      match expr
      case Union(terms) =>
        var t :| t in terms && Derives(env, n, obj, t);
        assert holds(obj, t);
      case IdentTerm(_) =>
      case RuleTerm(a) =>
        assert Derives(env, n - 1, obj, env.schema.Rule(obj.typ, a));
      case Intersect(terms) =>
        forall t | t in terms ensures holds(obj, t) {
          assert Derives(env, n, obj, t);
        }
      case Exclude(base, _) =>
        assert Derives(env, n, obj, base);
      case _ =>
        var ed :| Live(env, obj, expr, ed) && GoalDerives(env, n - 1, GoalOf(env, expr, ed));
        var goal := GoalOf(env, expr, ed);
        if goal.Ask? {
          assert Derives(env, n - 1, goal.node, goal.term);
        }
        assert GoalIn(holds, goal);
    }
    if Consequence(env, holds, obj, expr) {
      ConsequenceDerivable(env, obj, expr);
    }
  }

  lemma {:induction false} ConsequenceDerivable(env: Env, obj: NodeRef, expr: Expr)
    requires Consequence(env, Meaning(env), obj, expr)
    ensures Derivable(env, obj, expr)
  {
    var holds := Meaning(env);
    match expr
    case Union(terms) =>
      var t :| t in terms && holds(obj, t);
      var n: nat :| Derives(env, n, obj, t);
      assert Derives(env, n, obj, expr);
    case Intersect(terms) =>
      var n := CommonHeight(env, obj, terms);
      assert Derives(env, n, obj, expr);
    case Exclude(base, _) =>
      var n: nat :| Derives(env, n, obj, base);
      assert Derives(env, n, obj, expr);
    case RuleTerm(a) =>
      var n: nat :| Derives(env, n, obj, env.schema.Rule(obj.typ, a));
      assert Derives(env, n + 1, obj, expr);
    case IdentTerm(_) =>
    case _ =>
      var ed :| Live(env, obj, expr, ed) && GoalIn(holds, GoalOf(env, expr, ed));
      DerivableByEdge(env, obj, expr, ed);
  }

  /** Crossing one live edge whose goal is derivable derives the term. */
  lemma DerivableByEdge(env: Env, obj: NodeRef, term: Expr, ed: Edge)
    requires Live(env, obj, term, ed)
    requires var g := GoalOf(env, term, ed); g.Here? || (g.Ask? && Derivable(env, g.node, g.term))
    ensures Derivable(env, obj, term)
  {
    var g := GoalOf(env, term, ed);
    var n: nat := 0;
    if g.Ask? {
      n :| Derives(env, n, g.node, g.term);
    }
    assert GoalDerives(env, n, g);
    assert Derives(env, n + 1, obj, term);
  }
}
