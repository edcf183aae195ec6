/**
 * A match is always earned: the returned path is a list of edges the resolver
 * returned, active at the instant asked about, and those edges alone derive the
 * answer (core/reach/walk.go:209-417). Holds for the whole grammar.
 */
module Soundness {
  import opened Graph
  import opened Schemas
  import opened Walk
  import opened Semantics

  /** The step is an edge that one lookup of the resolver returns and that has not expired. */
  ghost predicate Witnessed(env: Env, step: Step) {
    exists obj: NodeRef, rel: string, ed :: ed in env.edges(obj, rel) && ed.Active(env.now) && step == StepOf(ed)
  }

  /** Same query over another resolver. */
  ghost predicate SameQuery(env: Env, other: Env) {
    && other.schema == env.schema
    && other.subject == env.subject
    && other.now == env.now
  }

  /** The other resolver still returns every active edge whose step is on the path. */
  ghost predicate Keeps(env: Env, other: Env, path: seq<Step>) {
    && SameQuery(env, other)
    && forall obj, rel, ed :: ed in env.edges(obj, rel) && ed.Active(env.now) && StepOf(ed) in path ==> ed in other.edges(obj, rel)
  }

  /** Nothing but the edges on the path is needed to derive the match. */
  ghost predicate Earned(env: Env, obj: NodeRef, expr: Expr, path: seq<Step>) {
    && (forall step :: step in path ==> Witnessed(env, step))
    && (forall other :: Keeps(env, other, path) ==> Derivable(other, obj, expr))
  }

  lemma LiveIsKept(env: Env, other: Env, obj: NodeRef, term: Expr, ed: Edge, path: seq<Step>)
    requires Live(env, obj, term, ed) && Keeps(env, other, path) && StepOf(ed) in path
    ensures Live(other, obj, term, ed) && GoalOf(other, term, ed) == GoalOf(env, term, ed)
    ensures Witnessed(env, StepOf(ed))
  {
    var rel := term.relation;
    assert ed in env.edges(obj, rel) || ed in env.edges(Star(obj.typ), rel);
  }

  lemma {:induction false} MatchIsEarned(env: Env, obj: NodeRef, expr: Expr, depth: nat, memo: Memo)
    ensures var r := Satisfies(env, obj, expr, depth, memo);
            r.out.Matched? ==> Earned(env, obj, expr, r.out.path)
    decreases Room(env, depth), Unentered(env, obj, memo), expr, 1
  {
    var r := Satisfies(env, obj, expr, depth, memo);
    if r.out.Matched? {
      match expr
      case RuleTerm(a) =>
        RuleMatchIsEarned(env, obj, a, depth, memo);
      case Union(terms) =>
        var t := AnyMatchIsEarned(env, obj, terms, depth, memo);
        forall other | Keeps(env, other, r.out.path) ensures Derivable(other, obj, expr) {
          var n: nat :| Derives(other, n, obj, t);
          assert Derives(other, n, obj, expr);
        }
      case Intersect(terms) =>
        AllMatchesAreEarned(env, obj, terms, depth, memo);
        forall other | Keeps(env, other, r.out.path) ensures Derivable(other, obj, expr) {
          var n := CommonHeight(other, obj, terms);
          assert Derives(other, n, obj, expr);
        }
      case Exclude(base, _) =>
        MatchIsEarned(env, obj, base, depth, memo);
        forall other | Keeps(env, other, r.out.path) ensures Derivable(other, obj, expr) {
          var n: nat :| Derives(other, n, obj, base);
          assert Derives(other, n, obj, expr);
        }
      case IdentTerm(_) =>
      case _ =>
        assert r == Remember(Key(obj, expr), memo, FollowTerm(env, obj, expr, depth, memo));
        FollowedMatchIsEarned(env, obj, expr, OutEdges(env, obj, expr), depth, Opened(memo, Key(obj, expr)));
    }
  }

  lemma {:induction false} RuleMatchIsEarned(env: Env, obj: NodeRef, a: string, depth: nat, memo: Memo)
    requires Satisfies(env, obj, RuleTerm(a), depth, memo).out.Matched?
    ensures Earned(env, obj, RuleTerm(a), Satisfies(env, obj, RuleTerm(a), depth, memo).out.path)
    decreases Room(env, depth), Unentered(env, obj, memo), RuleTerm(a), 0
  {
    var entered := Opened(memo, Key(obj, RuleTerm(a)));
    var body := env.schema.Rule(obj.typ, a);
    assert a in Unentered(env, obj, memo);
    assert Unentered(env, obj, entered) < Unentered(env, obj, memo);
    MatchIsEarned(env, obj, body, depth, entered);
    var path := Satisfies(env, obj, body, depth, entered).out.path;
    forall other | Keeps(env, other, path) ensures Derivable(other, obj, RuleTerm(a)) {
      var n: nat :| Derives(other, n, obj, body);
      assert Derives(other, n + 1, obj, RuleTerm(a));
    }
  }

  lemma {:induction false} FollowedMatchIsEarned(env: Env, obj: NodeRef, term: Expr, edges: seq<Edge>, depth: nat, memo: Memo)
    requires Declared(env, term) && depth <= env.maxDepth
    requires forall ed :: ed in edges ==> ed in OutEdges(env, obj, term)
    ensures var r := Follow(env, term, edges, depth, memo);
            r.out.Matched? ==> Earned(env, obj, term, r.out.path)
    decreases 2 * (env.maxDepth - depth) + 1, 0, |edges|
  {
    var r := Follow(env, term, edges, depth, memo);
    if edges == [] || !r.out.Matched? { return; }
    var ed := edges[0];
    assert forall e :: e in edges[1..] ==> e in edges;
    if !ed.Active(env.now) {
      FollowedMatchIsEarned(env, obj, term, edges[1..], depth, memo);
      return;
    }
    assert Live(env, obj, term, ed);
    match GoalOf(env, term, ed)
    case Nothing =>
      FollowedMatchIsEarned(env, obj, term, edges[1..], depth, memo);
    case Here =>
      EarnedByEdge(env, obj, term, ed, []);
    case Ask(node, next) =>
      var a := Satisfies(env, node, next, depth + 1, memo);
      if a.out.Matched? {
        MatchIsEarned(env, node, next, depth + 1, memo);
        EarnedByEdge(env, obj, term, ed, a.out.path);
      } else {
        FollowedMatchIsEarned(env, obj, term, edges[1..], depth, a.memo);
      }
  }

  lemma EarnedByEdge(env: Env, obj: NodeRef, term: Expr, ed: Edge, path: seq<Step>)
    requires Live(env, obj, term, ed)
    requires var g := GoalOf(env, term, ed); (g.Here? && path == []) || (g.Ask? && Earned(env, g.node, g.term, path))
    ensures Earned(env, obj, term, [StepOf(ed)] + path)
  {
    var full := [StepOf(ed)] + path;
    assert Witnessed(env, StepOf(ed)) by {
      LiveIsKept(env, env, obj, term, ed, full);
    }
    forall other | Keeps(env, other, full) ensures Derivable(other, obj, term) {
      LiveIsKept(env, other, obj, term, ed, full);
      assert Keeps(env, other, path);
      DerivableByEdge(other, obj, term, ed);
    }
  }

  lemma {:induction false} AnyMatchIsEarned(env: Env, obj: NodeRef, terms: seq<Expr>, depth: nat, memo: Memo) returns (t: Expr)
    requires AnyOf(env, obj, terms, depth, memo).out.Matched?
    ensures t in terms && Earned(env, obj, t, AnyOf(env, obj, terms, depth, memo).out.path)
    decreases Room(env, depth), Unentered(env, obj, memo), terms, 0
  {
    var a := Satisfies(env, obj, terms[0], depth, memo);
    if a.out.Missed? {
      t := AnyMatchIsEarned(env, obj, terms[1..], depth, a.memo);
    } else {
      t := terms[0];
      MatchIsEarned(env, obj, t, depth, memo);
    }
  }

  lemma {:induction false} AllMatchesAreEarned(env: Env, obj: NodeRef, terms: seq<Expr>, depth: nat, memo: Memo)
    requires AllOf(env, obj, terms, depth, memo).out.Matched?
    ensures forall t :: t in terms ==> Earned(env, obj, t, AllOf(env, obj, terms, depth, memo).out.path)
    ensures forall step :: step in AllOf(env, obj, terms, depth, memo).out.path ==> Witnessed(env, step)
    decreases Room(env, depth), Unentered(env, obj, memo), terms, 0
  {
    if terms != [] {
      var a := Satisfies(env, obj, terms[0], depth, memo);
      MatchIsEarned(env, obj, terms[0], depth, memo);
      AllMatchesAreEarned(env, obj, terms[1..], depth, a.memo);
      var rest := AllOf(env, obj, terms[1..], depth, a.memo).out.path;
      forall t | t in terms ensures Earned(env, obj, t, a.out.path + rest) {
        var own := if t == terms[0] then a.out.path else rest;
        assert Earned(env, obj, t, own);
        forall other | Keeps(env, other, a.out.path + rest) ensures Derivable(other, obj, t) {
          assert Keeps(env, other, own);
        }
      }
    }
  }
}
