/**
 * Intersection and subtraction on every store a schema lets anyone write: what the
 * declared targets say about the questions a walk can ask (core/reach/walk.go:272-293,
 * core/reach/delegate.go:79-112).
 */
module Declarations {
  import opened Wrappers
  import opened Graph
  import opened Schemas
  import opened Walk
  import opened Semantics
  import opened Exactness
  import opened Grounding
  import opened Bounds
  import opened Checks
  import opened Delegate
  import opened Separation
  import opened Knots
  import Delegation

  /** A question as the declarations know it: a term at any object of a type. */
  datatype Topic = Topic(typ: string, term: Expr)

  /** What the term asks at the far end of an edge to such a target; None when it asks nothing. */
  function Beyond(schema: Schema, term: Expr, target: TargetSpec): Option<Expr> {
    match term
    case RelationTerm(rel) =>
      if target.relation != "" then Some(RelationTerm(target.relation))
      else if rel in schema.relations && schema.relations[rel].transitive then Some(term)
      else None
    case ArrowTerm(_, action) =>
      Some(if schema.HasRule(target.typ, action) then RuleTerm(action) else RelationTerm(action))
    case _ => None
  }

  /** Every chain of questions the declarations allow from this one ends within n steps. */
  ghost predicate Ends(schema: Schema, n: nat, typ: string, expr: Expr)
    decreases n, expr
  {
    match expr
    case RelationTerm(rel) => n > 0 && forall target :: Admits(schema, typ, rel, target) ==> BeyondEnds(schema, n - 1, target.typ, Beyond(schema, expr, target))
    case ArrowTerm(rel, _) => n > 0 && forall target :: Admits(schema, typ, rel, target) ==> BeyondEnds(schema, n - 1, target.typ, Beyond(schema, expr, target))
    case RuleTerm(a) => n > 0 && (schema.HasRule(typ, a) ==> Ends(schema, n - 1, typ, schema.Rule(typ, a)))
    case Union(terms) => forall t :: t in terms ==> Ends(schema, n, typ, t)
    case Intersect(terms) => forall t :: t in terms ==> Ends(schema, n, typ, t)
    case Exclude(base, subtract) => Ends(schema, n, typ, base) && Ends(schema, n, typ, subtract)
    case IdentTerm(_) => true
  }

  ghost predicate BeyondEnds(schema: Schema, n: nat, typ: string, next: Option<Expr>)
    decreases n, next, 0
  {
    next.Some? ==> Ends(schema, n, typ, next.value)
  }

  /** The declarations below the question have no cycle. */
  ghost predicate IsAcyclic(schema: Schema, typ: string, expr: Expr) {
    exists n: nat :: Ends(schema, n, typ, expr)
  }

  /** The walk runs over writable edges of the environment's schema. */
  ghost predicate OverWritable(e: Evaluator, env: Env) {
    Delegation.WritableStore(e) && env.schema == e.schema && env.edges == e.edges
  }

  /** What a writable edge asks is what some declared target of its object's type asks. */
  lemma EdgeIsDeclared(e: Evaluator, env: Env, obj: NodeRef, term: Expr, ed: Edge) returns (target: TargetSpec)
    requires OverWritable(e, env) && Live(env, obj, term, ed)
    ensures Admits(env.schema, obj.typ, term.relation, target) && target.typ == ed.subject.node.typ
    ensures var g := GoalOf(env, term, ed);
            g.Ask? ==> g.node == ed.subject.node && Beyond(env.schema, term, target) == Some(g.term)
  {
    assert ed in env.edges(obj, term.relation) || ed in env.edges(Star(obj.typ), term.relation);
    assert Writable(env.schema, ed) && ed.obj.typ == obj.typ && ed.relation == term.relation;
    target :| target in env.schema.types[obj.typ].relations[term.relation] && TargetAllows(target, ed.subject);
  }

  /** Acyclic declarations ground the question in every writable store. */
  lemma {:induction false} AcyclicIsGrounded(e: Evaluator, env: Env, n: nat, obj: NodeRef, expr: Expr)
    requires OverWritable(e, env) && Ends(env.schema, n, obj.typ, expr)
    ensures Grounded(env, n, obj, expr)
    decreases n, expr
  {
    match expr {
      case Union(terms) =>
        forall t | t in terms ensures Grounded(env, n, obj, t) { AcyclicIsGrounded(e, env, n, obj, t); }
      case Intersect(terms) =>
        forall t | t in terms ensures Grounded(env, n, obj, t) { AcyclicIsGrounded(e, env, n, obj, t); }
      case Exclude(base, subtract) =>
        AcyclicIsGrounded(e, env, n, obj, base);
        AcyclicIsGrounded(e, env, n, obj, subtract);
      case RuleTerm(a) =>
        if env.schema.HasRule(obj.typ, a) {
          AcyclicIsGrounded(e, env, n - 1, obj, env.schema.Rule(obj.typ, a));
        }
      case RelationTerm(_) => EdgesAreGrounded(e, env, n, obj, expr);
      case ArrowTerm(_, _) => EdgesAreGrounded(e, env, n, obj, expr);
      case IdentTerm(_) =>
    }
  }

  lemma {:induction false} EdgesAreGrounded(e: Evaluator, env: Env, n: nat, obj: NodeRef, term: Expr)
    requires term.RelationTerm? || term.ArrowTerm?
    requires OverWritable(e, env) && Ends(env.schema, n, obj.typ, term)
    ensures Grounded(env, n, obj, term)
    decreases n, term, 0
  {
    forall ed | Live(env, obj, term, ed) ensures GoalGrounded(env, n - 1, GoalOf(env, term, ed)) {
      var target := EdgeIsDeclared(e, env, obj, term, ed);
      assert BeyondEnds(env.schema, n - 1, target.typ, Beyond(env.schema, term, target));
      var g := GoalOf(env, term, ed);
      if g.Ask? {
        AcyclicIsGrounded(e, env, n - 1, g.node, g.term);
      }
    }
  }

  /**
   * For every schema: a rule whose declarations have no cycle is decided as it is
   * meant, `&` and `-` included, on every store anyone can write.
   */
  lemma AcyclicRuleIsExact(e: Evaluator, req: Request, now: int)
    requires Delegation.WritableStore(e)
    requires e.schema.HasRule(req.resource.typ, req.action) ==>
      IsAcyclic(e.schema, req.resource.typ, e.schema.Rule(req.resource.typ, req.action))
    ensures CheckIsExact(e, req, now)
  {
    var env := EnvOf(e, req.subject, now);
    AllowedIsMatched(e, req, now);
    if e.schema.HasRule(req.resource.typ, req.action) {
      var rule := e.schema.Rule(req.resource.typ, req.action);
      var n: nat :| Ends(e.schema, n, req.resource.typ, rule);
      AcyclicIsGrounded(e, env, n, req.resource, rule);
      WalkIsRight(env, n, req.resource, rule, 0, EMPTY_MEMO);
      GroundedMeant(env, n, req.resource, rule);
    }
  }

  // ---- Declarations that share acyclic questions only ----

  /** Every memoised term the expression tries at an object of the type is in the set. */
  ghost predicate Covers(topics: iset<Topic>, typ: string, expr: Expr) {
    match expr
    case Union(terms) => forall t :: t in terms ==> Covers(topics, typ, t)
    case Intersect(terms) => forall t :: t in terms ==> Covers(topics, typ, t)
    case Exclude(base, subtract) => Covers(topics, typ, base) && Covers(topics, typ, subtract)
    case IdentTerm(_) => false
    case _ => Topic(typ, expr) in topics
  }

  ghost predicate TopicAsksInside(schema: Schema, topics: iset<Topic>, q: Topic) {
    match q.term
    case RuleTerm(a) => schema.HasRule(q.typ, a) ==> Covers(topics, q.typ, schema.Rule(q.typ, a))
    case RelationTerm(rel) => forall target :: Admits(schema, q.typ, rel, target) ==> BeyondCovered(schema, topics, q.term, target)
    case ArrowTerm(rel, _) => forall target :: Admits(schema, q.typ, rel, target) ==> BeyondCovered(schema, topics, q.term, target)
    case _ => true
  }

  ghost predicate BeyondCovered(schema: Schema, topics: iset<Topic>, term: Expr, target: TargetSpec) {
    var next := Beyond(schema, term, target);
    next.Some? ==> Covers(topics, target.typ, next.value)
  }

  /** The set holds every question the expression can lead to. */
  ghost predicate Encloses(schema: Schema, topics: iset<Topic>, typ: string, expr: Expr) {
    Covers(topics, typ, expr) && forall q :: q in topics ==> TopicAsksInside(schema, topics, q)
  }

  /** Whatever both sets hold has no cycle below it. */
  ghost predicate DeclaredApart(schema: Schema, a: iset<Topic>, b: iset<Topic>) {
    forall q :: q in a && q in b ==> IsAcyclic(schema, q.typ, q.term)
  }

  /** By its declarations alone, the operands of `&` and `-` share acyclic questions only. */
  ghost predicate DeclaredSeparate(schema: Schema, actions: iset<string>, topics: iset<Topic>, typ: string, expr: Expr)
    decreases expr, 1
  {
    && Encloses(schema, topics, typ, expr)
    && (AdditiveExpr(actions, expr) || IsAcyclic(schema, typ, expr)
        || match expr
           case Union(terms) => DeclaredSeparateTerms(schema, actions, topics, typ, terms, false)
           case Intersect(terms) => DeclaredSeparateTerms(schema, actions, topics, typ, terms, true)
           case Exclude(base, subtract) =>
             exists a: iset<Topic>, b: iset<Topic> ::
               && a <= topics && b <= topics && DeclaredApart(schema, a, b)
               && DeclaredSeparate(schema, actions, a, typ, base) && DeclaredSeparate(schema, actions, b, typ, subtract)
           case _ => false)
  }

  ghost predicate DeclaredSeparateTerms(schema: Schema, actions: iset<string>, topics: iset<Topic>, typ: string, terms: seq<Expr>, all: bool)
    decreases terms, 0
  {
    terms == [] ||
    exists first: iset<Topic>, rest: iset<Topic> ::
      && first <= topics && rest <= topics
      && (DeclaredApart(schema, first, rest) || (!all && AdditiveExpr(actions, terms[0])))
      && DeclaredSeparate(schema, actions, first, typ, terms[0])
      && DeclaredSeparateTerms(schema, actions, rest, typ, terms[1..], all)
  }

  /** The questions about these topics, at any object. */
  ghost function KeysOf(topics: iset<Topic>): iset<Key> {
    iset k: Key | Topic(k.obj.typ, k.term) in topics
  }

  lemma {:induction false} CoversInside(topics: iset<Topic>, obj: NodeRef, expr: Expr)
    requires Covers(topics, obj.typ, expr)
    ensures Inside(KeysOf(topics), obj, expr)
    decreases expr
  {
    match expr {
      case Union(terms) => forall t | t in terms ensures Inside(KeysOf(topics), obj, t) { CoversInside(topics, obj, t); }
      case Intersect(terms) => forall t | t in terms ensures Inside(KeysOf(topics), obj, t) { CoversInside(topics, obj, t); }
      case Exclude(base, subtract) =>
        CoversInside(topics, obj, base);
        CoversInside(topics, obj, subtract);
      case _ =>
    }
  }

  /** In a writable store the questions of an enclosing set ask each other only. */
  lemma EnclosedIsClosed(e: Evaluator, env: Env, topics: iset<Topic>)
    requires OverWritable(e, env)
    requires forall q :: q in topics ==> TopicAsksInside(env.schema, topics, q)
    ensures ClosedUnderAsking(env, KeysOf(topics))
  {
    var keys := KeysOf(topics);
    forall k | k in keys ensures AsksInside(env, keys, k) {
      assert TopicAsksInside(env.schema, topics, Topic(k.obj.typ, k.term));
      if k.term.RuleTerm? {
        if env.schema.HasRule(k.obj.typ, k.term.action) {
          CoversInside(topics, k.obj, env.schema.Rule(k.obj.typ, k.term.action));
        }
      } else if Declared(env, k.term) {
        forall ed | ed in OutEdges(env, k.obj, k.term) && ed.Active(env.now) ensures EdgeInside(env, keys, k.term, ed) {
          var target := EdgeIsDeclared(e, env, k.obj, k.term, ed);
          assert BeyondCovered(env.schema, topics, k.term, target);
          var g := GoalOf(env, k.term, ed);
          if g.Ask? {
            CoversInside(topics, g.node, g.term);
          }
        }
      }
    }
  }

  lemma DeclaredApartIsApart(e: Evaluator, env: Env, a: iset<Topic>, b: iset<Topic>)
    requires OverWritable(e, env) && DeclaredApart(env.schema, a, b)
    ensures Apart(env, KeysOf(a), KeysOf(b))
  {
    forall k | k in KeysOf(a) && k in KeysOf(b) ensures IsGrounded(env, k.obj, k.term) {
      var n: nat :| Ends(env.schema, n, k.obj.typ, k.term);
      AcyclicIsGrounded(e, env, n, k.obj, k.term);
    }
  }

  lemma KeysOfMore(topics: iset<Topic>, more: iset<Topic>)
    requires topics <= more
    ensures KeysOf(topics) <= KeysOf(more)
  {
  }

  lemma {:induction false} DeclaredIsSeparate(e: Evaluator, env: Env, actions: iset<string>, topics: iset<Topic>, obj: NodeRef, expr: Expr)
    requires OverWritable(e, env) && DeclaredSeparate(env.schema, actions, topics, obj.typ, expr)
    ensures Separate(env, actions, KeysOf(topics), obj, expr)
    decreases expr, 1
  {
    EnclosedIsClosed(e, env, topics);
    CoversInside(topics, obj, expr);
    if AdditiveExpr(actions, expr) {
    } else if IsAcyclic(env.schema, obj.typ, expr) {
      var n: nat :| Ends(env.schema, n, obj.typ, expr);
      AcyclicIsGrounded(e, env, n, obj, expr);
    } else {
      match expr {
        case Union(terms) => DeclaredTermsAreSeparate(e, env, actions, topics, obj, terms, false);
        case Intersect(terms) => DeclaredTermsAreSeparate(e, env, actions, topics, obj, terms, true);
        case Exclude(base, subtract) =>
          var a: iset<Topic>, b: iset<Topic> :|
            && a <= topics && b <= topics && DeclaredApart(env.schema, a, b)
            && DeclaredSeparate(env.schema, actions, a, obj.typ, base) && DeclaredSeparate(env.schema, actions, b, obj.typ, subtract);
          DeclaredApartIsApart(e, env, a, b);
          KeysOfMore(a, topics);
          KeysOfMore(b, topics);
          DeclaredIsSeparate(e, env, actions, a, obj, base);
          DeclaredIsSeparate(e, env, actions, b, obj, subtract);
      }
    }
  }

  lemma {:induction false} DeclaredTermsAreSeparate(e: Evaluator, env: Env, actions: iset<string>, topics: iset<Topic>, obj: NodeRef, terms: seq<Expr>, all: bool)
    requires OverWritable(e, env) && DeclaredSeparateTerms(env.schema, actions, topics, obj.typ, terms, all)
    ensures SeparateTerms(env, actions, KeysOf(topics), obj, terms, all)
    decreases terms, 0
  {
    if terms == [] { return; }
    var first: iset<Topic>, rest: iset<Topic> :|
      && first <= topics && rest <= topics
      && (DeclaredApart(env.schema, first, rest) || (!all && AdditiveExpr(actions, terms[0])))
      && DeclaredSeparate(env.schema, actions, first, obj.typ, terms[0])
      && DeclaredSeparateTerms(env.schema, actions, rest, obj.typ, terms[1..], all);
    if DeclaredApart(env.schema, first, rest) {
      DeclaredApartIsApart(e, env, first, rest);
    }
    KeysOfMore(first, topics);
    KeysOfMore(rest, topics);
    DeclaredIsSeparate(e, env, actions, first, obj, terms[0]);
    DeclaredTermsAreSeparate(e, env, actions, rest, obj, terms[1..], all);
  }

  /** Some additive actions and some enclosing questions show the rule separate. */
  ghost predicate RuleIsSeparate(schema: Schema, typ: string, action: string)
    requires schema.HasRule(typ, action)
  {
    exists actions: iset<string>, topics: iset<Topic> ::
      AdditiveOn(schema, actions) && DeclaredSeparate(schema, actions, topics, typ, schema.Rule(typ, action))
  }

  /**
   * A schema whose rules are separate by their declarations, or have no cycle below
   * them, is decided as it is meant on every store anyone can write.
   */
  lemma DeclaredSeparateIsExact(schema: Schema)
    requires forall typ, a :: schema.HasRule(typ, a) ==> RuleIsSeparate(schema, typ, a) || IsAcyclic(schema, typ, schema.Rule(typ, a))
    ensures ExactOnWritable(schema)
  {
    forall e: Evaluator, req: Request, now: int | e.schema == schema && Delegation.WritableStore(e)
      ensures CheckIsExact(e, req, now)
    {
      var env := EnvOf(e, req.subject, now);
      var typ, a := req.resource.typ, req.action;
      if schema.HasRule(typ, a) && RuleIsSeparate(schema, typ, a) {
        var actions: iset<string>, topics: iset<Topic> :|
          AdditiveOn(schema, actions) && DeclaredSeparate(schema, actions, topics, typ, schema.Rule(typ, a));
        DeclaredIsSeparate(e, env, actions, topics, req.resource, schema.Rule(typ, a));
        CheckDecidesSeparate(e, actions, KeysOf(topics), req, now);
      } else {
        AcyclicRuleIsExact(e, req, now);
      }
    }
  }
}
