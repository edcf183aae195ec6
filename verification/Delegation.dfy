/** No principal grants what it does not hold (core/reach/delegate.go:28-168). */
module Delegation {
  import opened Wrappers
  import opened Graph
  import opened Schemas
  import opened Sorting
  import opened Walk
  import opened Semantics
  import opened Exactness
  import opened Checks
  import opened CheckTheorems
  import opened Delegate

  // ---- Star grants lift ----

  /** Edges on a star node sit only under relations that admit a wildcard object. */
  ghost predicate StarsAdmitted(env: Env) {
    forall typ: string, rel: string, ed :: rel in env.schema.relations && ed in env.edges(Star(typ), rel) ==>
      env.schema.relations[rel].wildcard.AllowsObject()
  }

  /** What a subject reaches on T:* it reaches on every T:x. */
  lemma {:induction false} StarLifts(env: Env, n: nat, obj: NodeRef, expr: Expr)
    requires StarsAdmitted(env)
    requires Derives(env, n, Star(obj.typ), expr)
    ensures Derives(env, n, obj, expr)
    decreases n, expr
  {
    match expr
    case RuleTerm(a) => StarLifts(env, n - 1, obj, env.schema.Rule(obj.typ, a));
    case Union(terms) =>
      var t :| t in terms && Derives(env, n, Star(obj.typ), t);
      StarLifts(env, n, obj, t);
    case Intersect(terms) =>
      forall t | t in terms ensures Derives(env, n, obj, t) {
        StarLifts(env, n, obj, t);
      }
    case Exclude(base, _) => StarLifts(env, n, obj, base);
    case IdentTerm(_) =>
    case RelationTerm(_) => StarEdgeLifts(env, n, obj, expr);
    case ArrowTerm(_, _) => StarEdgeLifts(env, n, obj, expr);
  }

  lemma StarEdgeLifts(env: Env, n: nat, obj: NodeRef, term: Expr)
    requires term.RelationTerm? || term.ArrowTerm?
    requires StarsAdmitted(env)
    requires Derives(env, n, Star(obj.typ), term)
    ensures Derives(env, n, obj, term)
  {
    var ed :| Live(env, Star(obj.typ), term, ed) && GoalDerives(env, n - 1, GoalOf(env, term, ed));
    assert ed in env.edges(Star(obj.typ), term.relation);
    assert obj.IsWildcard() ==> obj == Star(obj.typ);
    assert Live(env, obj, term, ed);
  }

  // ---- One accepted write ----

  /** The store holds writable edges, each under its own object and relation. */
  ghost predicate WritableStore(e: Evaluator) {
    forall obj: NodeRef, rel: string, ed :: ed in e.edges(obj, rel) ==>
      ed.obj == obj && ed.relation == rel && Writable(e.schema, ed)
  }

  /**
   * The relation's edges matter only at the object they are written on: it is direct,
   * and no userset target and no far side of an arrow names it.
   */
  ghost predicate Local(schema: Schema, rel: string) {
    && (rel in schema.relations ==> !schema.relations[rel].transitive)
    && (forall typ, r, target :: typ in schema.types && r in schema.types[typ].relations && target in schema.types[typ].relations[r] ==>
          target.relation != rel)
    && (forall typ, a :: schema.HasRule(typ, a) ==> NearSideOnly(schema, typ, schema.Rule(typ, a), rel))
  }

  /** No arrow of the expression falls back to the relation at its far end. */
  ghost predicate NearSideOnly(schema: Schema, typ: string, expr: Expr, rel: string) {
    match expr
    case ArrowTerm(r, target) =>
      target == rel ==> forall spec :: typ in schema.types && r in schema.types[typ].relations && spec in schema.types[typ].relations[r] ==>
        schema.HasRule(spec.typ, rel)
    case Union(terms) => forall t :: t in terms ==> NearSideOnly(schema, typ, t, rel)
    case Intersect(terms) => forall t :: t in terms ==> NearSideOnly(schema, typ, t, rel)
    case Exclude(base, subtract) => NearSideOnly(schema, typ, base, rel) && NearSideOnly(schema, typ, subtract, rel)
    case _ => true
  }

  /** After the write the store holds at most the new edge more; an overwritten or deleted edge may be gone. */
  ghost predicate AtMostAdds(e: Evaluator, after: Evaluator, p: Edge) {
    && after.schema == e.schema
    && forall obj: NodeRef, rel: string, ed :: ed in after.edges(obj, rel) ==>
         ed in e.edges(obj, rel) || (ed == p && obj == p.obj && rel == p.relation)
  }

  /** An accepted write: the store before and after, who wrote and what. */
  ghost predicate Accepted(e: Evaluator, after: Evaluator, granter: NodeRef, p: Edge, now: int) {
    && CanWriteSpec(e, granter, p, CarveNone, now).None?
    && AtMostAdds(e, after, p)
    && Local(e.schema, p.relation)
  }

  /** The term reads the relation's edges at its own object. */
  predicate Reads(expr: Expr, rel: string) {
    match expr
    case RelationTerm(r) => r == rel
    case ArrowTerm(r, _) => r == rel
    case Union(terms) => exists t :: t in terms && Reads(t, rel)
    case _ => false
  }

  lemma {:induction false} ReadingFeeds(t: TypeDef, expr: Expr, rel: string, seen: set<string>)
    requires Reads(expr, rel)
    ensures ExprFeeds(t, expr, rel, seen)
    decreases expr
  {
    if expr.Union? {
      var term :| term in expr.terms && Reads(term, rel);
      ReadingFeeds(t, term, rel, seen);
    }
  }

  lemma {:induction false} GranterHolds(e: Evaluator, granter: NodeRef, obj: NodeRef, actions: seq<string>, now: int, a: string)
    requires Additive(e.schema)
    requires FirstLacking(e, granter, obj, actions, now).None? && a in actions
    ensures May(EnvOf(e, granter, now), obj, a)
  {
    if a == actions[0] {
      CheckDecidesReachability(e, Request(granter, a, obj), now);
    } else {
      GranterHolds(e, granter, obj, actions[1..], now, a);
    }
  }

  /** The granter holds every fed action on the object of the edge it may write. */
  lemma GranterHoldsFed(e: Evaluator, granter: NodeRef, p: Edge, now: int, a: string)
    requires Additive(e.schema)
    requires CanWriteSpec(e, granter, p, CarveNone, now).None?
    requires a in FedActions(e.schema, p.obj.typ, p.relation)
    ensures May(EnvOf(e, granter, now), p.obj, a)
  {
    var fed := ActionsFed(e.schema, p.obj.typ, p.relation);
    assert a in Elements(fed);
    GranterHolds(e, granter, p.obj, fed, now, a);
  }

  lemma WritableStarsAdmitted(e: Evaluator, env: Env)
    requires WritableStore(e) && env.schema == e.schema && env.edges == e.edges
    ensures StarsAdmitted(env)
  {
    forall typ: string, rel: string, ed | rel in env.schema.relations && ed in env.edges(Star(typ), rel)
      ensures env.schema.relations[rel].wildcard.AllowsObject()
    {
      assert Writable(e.schema, ed);
    }
  }

  /** Star grants lift: over a writable store, whatever a subject may do on T:* it may do on T:x. */
  lemma StarGrantsLift(e: Evaluator, s: NodeRef, now: int, obj: NodeRef, a: string)
    requires WritableStore(e)
    requires May(EnvOf(e, s, now), Star(obj.typ), a)
    ensures May(EnvOf(e, s, now), obj, a)
  {
    var env := EnvOf(e, s, now);
    WritableStarsAdmitted(e, env);
    var n: nat :| Derives(env, n, Star(obj.typ), RuleTerm(a));
    StarLifts(env, n, obj, RuleTerm(a));
  }

  /** The granter holds every action the new edge feeds, on every object it can be read from. */
  lemma GranterCovers(e: Evaluator, granter: NodeRef, p: Edge, now: int, obj: NodeRef, a: string)
    requires Additive(e.schema) && WritableStore(e)
    requires CanWriteSpec(e, granter, p, CarveNone, now).None?
    requires p.obj == obj || p.obj == Star(obj.typ)
    requires e.schema.HasRule(obj.typ, a) && Reads(e.schema.Rule(obj.typ, a), p.relation)
    ensures May(EnvOf(e, granter, now), obj, a)
  {
    ReadingFeeds(e.schema.types[obj.typ], e.schema.Rule(obj.typ, a), p.relation, {});
    GranterHoldsFed(e, granter, p, now, a);
    if p.obj != obj {
      StarGrantsLift(e, granter, now, obj, a);
    }
  }

  /** A live edge after the write is an old one, or the new one read from its own object. */
  lemma LiveAfter(e: Evaluator, after: Evaluator, p: Edge, s: NodeRef, now: int, obj: NodeRef, term: Expr, ed: Edge)
    requires AtMostAdds(e, after, p)
    requires Live(EnvOf(after, s, now), obj, term, ed)
    ensures GoalOf(EnvOf(after, s, now), term, ed) == GoalOf(EnvOf(e, s, now), term, ed)
    ensures || Live(EnvOf(e, s, now), obj, term, ed)
            || (ed == p && term.relation == p.relation && (p.obj == obj || p.obj == Star(obj.typ)))
  {
  }

  /** A userset edge of a writable store never follows a local relation. */
  lemma UsersetElsewhere(e: Evaluator, p: Edge, env: Env, obj: NodeRef, term: Expr, ed: Edge)
    requires WritableStore(e) && Local(e.schema, p.relation)
    requires env.schema == e.schema && env.edges == e.edges
    requires Live(env, obj, term, ed)
    ensures ed.subject.relation != p.relation
    ensures term.ArrowTerm? && obj.typ in e.schema.types && ed.obj.typ == obj.typ ==>
            exists spec :: term.relation in e.schema.types[obj.typ].relations && spec in e.schema.types[obj.typ].relations[term.relation] && spec.typ == ed.subject.node.typ
    ensures ed.obj.typ == obj.typ
  {
    var rel := term.relation;
    assert ed in e.edges(obj, rel) || ed in e.edges(Star(obj.typ), rel);
    assert Writable(e.schema, ed);
    var targets := e.schema.types[ed.obj.typ].relations[rel];
    var target :| target in targets && TargetAllows(target, ed.subject);
  }

  /** Relations other than the one written mean the same after the write. */
  lemma {:induction false} OtherRelationsUnchanged(e: Evaluator, after: Evaluator, p: Edge, s: NodeRef, now: int, n: nat, obj: NodeRef, rel: string)
    requires WritableStore(e) && Local(e.schema, p.relation) && AtMostAdds(e, after, p)
    requires rel != p.relation
    requires Derives(EnvOf(after, s, now), n, obj, RelationTerm(rel))
    ensures Derivable(EnvOf(e, s, now), obj, RelationTerm(rel))
    decreases n
  {
    var env', env := EnvOf(after, s, now), EnvOf(e, s, now);
    var term := RelationTerm(rel);
    var ed :| Live(env', obj, term, ed) && GoalDerives(env', n - 1, GoalOf(env', term, ed));
    LiveAfter(e, after, p, s, now, obj, term, ed);
    UsersetElsewhere(e, p, env, obj, term, ed);
    var g := GoalOf(env, term, ed);
    if g.Ask? {
      OtherRelationsUnchanged(e, after, p, s, now, n - 1, g.node, g.term.relation);
    }
    DerivableByEdge(env, obj, term, ed);
  }

  /** What a subject reaches through a rule after the write, it or the granter reached before. */
  lemma {:induction false} RuleGains(e: Evaluator, after: Evaluator, granter: NodeRef, p: Edge, s: NodeRef, now: int, n: nat, obj: NodeRef, a: string)
    requires Additive(e.schema) && WritableStore(e) && Accepted(e, after, granter, p, now)
    requires Derives(EnvOf(after, s, now), n, obj, RuleTerm(a))
    ensures May(EnvOf(e, s, now), obj, a) || May(EnvOf(e, granter, now), obj, a)
    decreases n, RuleTerm(a), 0
  {
    var body := e.schema.Rule(obj.typ, a);
    MayIsRuleDerivable(EnvOf(e, granter, now), obj, a);
    MayIsRuleDerivable(EnvOf(e, s, now), obj, a);
    ExprGains(e, after, granter, p, s, now, n - 1, obj, a, body);
  }

  /**
   * The same for a part of the rule of `a`: either the subject already had it, or
   * the granter holds `a` on this object.
   */
  lemma {:induction false} ExprGains(e: Evaluator, after: Evaluator, granter: NodeRef, p: Edge, s: NodeRef, now: int, n: nat, obj: NodeRef, a: string, expr: Expr)
    requires Additive(e.schema) && WritableStore(e) && Accepted(e, after, granter, p, now)
    requires e.schema.HasRule(obj.typ, a) && AdditiveExpr(EVERY_ACTION, expr)
    requires NearSideOnly(e.schema, obj.typ, expr, p.relation)
    requires Reads(expr, p.relation) ==> Reads(e.schema.Rule(obj.typ, a), p.relation)
    requires Derivable(EnvOf(e, granter, now), obj, expr) ==> May(EnvOf(e, granter, now), obj, a)
    requires Derives(EnvOf(after, s, now), n, obj, expr)
    ensures Derivable(EnvOf(e, s, now), obj, expr) || May(EnvOf(e, granter, now), obj, a)
    decreases n, expr, 1
  {
    if expr.Union? {
      var t :| t in expr.terms && Derives(EnvOf(after, s, now), n, obj, t);
      PartOfUnion(EnvOf(e, granter, now), obj, expr, t);
      PartOfUnion(EnvOf(e, s, now), obj, expr, t);
      assert Reads(t, p.relation) ==> Reads(expr, p.relation);
      assert NearSideOnly(e.schema, obj.typ, t, p.relation);
      assert AdditiveExpr(EVERY_ACTION, t);
      ExprGains(e, after, granter, p, s, now, n, obj, a, t);
    } else if expr.RuleTerm? {
      RuleGains(e, after, granter, p, s, now, n, obj, expr.action);
    } else {
      TermGains(e, after, granter, p, s, now, n, obj, a, expr);
    }
  }

  lemma PartOfUnion(env: Env, obj: NodeRef, whole: Expr, part: Expr)
    requires whole.Union? && part in whole.terms
    ensures Derivable(env, obj, part) ==> Derivable(env, obj, whole)
  {
    if Derivable(env, obj, part) {
      var k: nat :| Derives(env, k, obj, part);
      assert Derives(env, k, obj, whole);
    }
  }

  lemma {:induction false} TermGains(e: Evaluator, after: Evaluator, granter: NodeRef, p: Edge, s: NodeRef, now: int, n: nat, obj: NodeRef, a: string, term: Expr)
    requires Additive(e.schema) && WritableStore(e) && Accepted(e, after, granter, p, now)
    requires e.schema.HasRule(obj.typ, a)
    requires term.RelationTerm? || term.ArrowTerm?
    requires NearSideOnly(e.schema, obj.typ, term, p.relation)
    requires Reads(term, p.relation) ==> Reads(e.schema.Rule(obj.typ, a), p.relation)
    requires Derivable(EnvOf(e, granter, now), obj, term) ==> May(EnvOf(e, granter, now), obj, a)
    requires Derives(EnvOf(after, s, now), n, obj, term)
    ensures Derivable(EnvOf(e, s, now), obj, term) || May(EnvOf(e, granter, now), obj, a)
    decreases n, term, 0
  {
    var ed :| Live(EnvOf(after, s, now), obj, term, ed) && GoalDerives(EnvOf(after, s, now), n - 1, GoalOf(EnvOf(after, s, now), term, ed));
    LiveAfter(e, after, p, s, now, obj, term, ed);
    if Live(EnvOf(e, s, now), obj, term, ed) {
      OldEdgeGains(e, after, granter, p, s, now, n, obj, term, ed);
    } else {
      GranterCovers(e, granter, p, now, obj, a);
    }
  }

  /** An edge that was there before passes on what its far end held or the granter held there. */
  lemma {:induction false} OldEdgeGains(e: Evaluator, after: Evaluator, granter: NodeRef, p: Edge, s: NodeRef, now: int, n: nat, obj: NodeRef, term: Expr, ed: Edge)
    requires Additive(e.schema) && WritableStore(e) && Accepted(e, after, granter, p, now)
    requires n > 0 && Live(EnvOf(e, s, now), obj, term, ed)
    requires NearSideOnly(e.schema, obj.typ, term, p.relation)
    requires GoalDerives(EnvOf(after, s, now), n - 1, GoalOf(EnvOf(e, s, now), term, ed))
    ensures Derivable(EnvOf(e, s, now), obj, term) || Derivable(EnvOf(e, granter, now), obj, term)
    decreases n - 1
  {
    var env, genv := EnvOf(e, s, now), EnvOf(e, granter, now);
    var g := GoalOf(env, term, ed);
    UsersetElsewhere(e, p, env, obj, term, ed);
    if g.Ask? && g.term.RuleTerm? {
      RuleGains(e, after, granter, p, s, now, n - 1, g.node, g.term.action);
      if May(genv, g.node, g.term.action) {
        DerivableByEdge(genv, obj, term, ed);
      } else {
        DerivableByEdge(env, obj, term, ed);
      }
    } else {
      if g.Ask? {
        OtherRelationsUnchanged(e, after, p, s, now, n - 1, g.node, g.term.relation);
      }
      DerivableByEdge(env, obj, term, ed);
    }
  }

  /**
   * No principal grants what it does not hold: whatever anyone newly reaches after
   * an accepted write, on any resource, the granter already reached there.
   */
  lemma NoEscalation(e: Evaluator, after: Evaluator, granter: NodeRef, p: Edge, s: NodeRef, now: int, obj: NodeRef, a: string)
    requires Additive(e.schema) && WritableStore(e) && Accepted(e, after, granter, p, now)
    requires May(EnvOf(after, s, now), obj, a)
    ensures May(EnvOf(e, s, now), obj, a) || May(EnvOf(e, granter, now), obj, a)
  {
    var n: nat :| Derives(EnvOf(after, s, now), n, obj, RuleTerm(a));
    RuleGains(e, after, granter, p, s, now, n, obj, a);
  }

  /** The same, in the answers of Check before and after the write. */
  lemma NewlyAllowedWasAllowedToGranter(e: Evaluator, after: Evaluator, granter: NodeRef, p: Edge, req: Request, now: int)
    requires Additive(e.schema) && WritableStore(e) && Accepted(e, after, granter, p, now)
    requires CheckSpec(e, req, now).Ok? && !CheckSpec(e, req, now).value.allowed
    requires CheckSpec(after, req, now).Ok? && CheckSpec(after, req, now).value.allowed
    ensures var granterReq := req.(subject := granter);
            CheckSpec(e, granterReq, now).Ok? ==> CheckSpec(e, granterReq, now).value.allowed
  {
    CheckDecidesReachability(e, req, now);
    CheckDecidesReachability(after, req, now);
    CheckDecidesReachability(e, req.(subject := granter), now);
    NoEscalation(e, after, granter, p, req.subject, now, req.resource, req.action);
  }

  // ---- Any run of accepted writes and deletions ----

  datatype Change = Granted(granter: NodeRef, edge: Edge) | Removed

  /** One change of the store: an accepted write, or edges going away. */
  ghost predicate Evolves(e: Evaluator, after: Evaluator, change: Change, now: int) {
    match change
    case Granted(granter, edge) => Accepted(e, after, granter, edge, now)
    case Removed => Extends(after, e)
  }

  /** A run: stores[i] becomes stores[i + 1] by changes[i]. */
  ghost predicate Run(stores: seq<Evaluator>, changes: seq<Change>, now: int) {
    && |stores| == |changes| + 1
    && forall i :: 0 <= i < |changes| ==> Evolves(stores[i], stores[i + 1], changes[i], now)
  }

  lemma WritableAfter(e: Evaluator, after: Evaluator, change: Change, now: int)
    requires WritableStore(e) && Evolves(e, after, change, now)
    ensures WritableStore(after) && after.schema == e.schema
  {
  }

  /**
   * Powers are conserved: after any run of accepted writes and deletions, an
   * action somebody may perform on a resource is one that somebody could already
   * perform on it at the start.
   */
  lemma {:induction false} PowersAreConserved(stores: seq<Evaluator>, changes: seq<Change>, now: int, s: NodeRef, obj: NodeRef, a: string) returns (holder: NodeRef)
    requires Run(stores, changes, now)
    requires Additive(stores[0].schema) && WritableStore(stores[0])
    requires May(EnvOf(stores[|changes|], s, now), obj, a)
    ensures May(EnvOf(stores[0], holder, now), obj, a)
    ensures holder == s || exists i :: 0 <= i < |changes| && changes[i].Granted? && changes[i].granter == holder
    decreases |changes|
  {
    if changes == [] {
      holder := s;
    } else {
      assert Evolves(stores[0], stores[1], changes[0], now);
      WritableAfter(stores[0], stores[1], changes[0], now);
      assert Run(stores[1..], changes[1..], now) by {
        forall i | 0 <= i < |changes[1..]| ensures Evolves(stores[1..][i], stores[1..][i + 1], changes[1..][i], now) {
          assert Evolves(stores[i + 1], stores[i + 2], changes[i + 1], now);
        }
      }
      var next := PowersAreConserved(stores[1..], changes[1..], now, s, obj, a);
      holder := next;
      match changes[0]
      case Removed => MayGrows(EnvOf(stores[1], next, now), EnvOf(stores[0], next, now), obj, a);
      case Granted(granter, edge) =>
        NoEscalation(stores[0], stores[1], granter, edge, next, now, obj, a);
        if !May(EnvOf(stores[0], next, now), obj, a) {
          holder := granter;
        }
    }
  }
}
