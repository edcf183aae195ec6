/**
 * What the engine promises, written from the schema and the edges alone. Nothing of
 * the walk is used, and every comparison is written out (core/reach/walk.go:209-417,
 * core/reach/schema.go:19-34, core/reach/graph.go:22-107).
 */
module Reference {
  import opened Wrappers
  import opened Graph
  import opened Schemas
  import opened Walk
  import opened Semantics
  import opened Grounding
  import opened Exactness
  import opened Checks
  import opened CheckTheorems

  /** The relation takes edges on the star node of a type, which speak for all its objects. */
  predicate OnStars(def: RelationDef) {
    def.wildcard == WildcardObject || def.wildcard == WildcardBoth
  }

  /** The relation takes edges to the star node of a type, which speak for all its subjects. */
  predicate ToStars(def: RelationDef) {
    def.wildcard == WildcardSubject || def.wildcard == WildcardBoth
  }

  /** The edge stands at the instant and speaks for the object under the declared relation. */
  ghost predicate Speaks(e: Evaluator, now: int, obj: NodeRef, rel: string, ed: Edge) {
    && rel in e.schema.relations
    && (ed in e.edges(obj, rel)
        || (obj.id != "*" && OnStars(e.schema.relations[rel]) && ed in e.edges(NodeRef(obj.typ, "*"), rel)))
    && (ed.expiresAt.None? || now < ed.expiresAt.value)
  }

  /** The edge names the subject, or everyone of its type. */
  predicate NamesSubject(def: RelationDef, subject: NodeRef, ed: Edge) {
    ed.subject.node == subject || (ToStars(def) && ed.subject.node == NodeRef(subject.typ, "*"))
  }

  /** An arrow asks the far type's rule when it has one, its relation otherwise. */
  function Asked(schema: Schema, typ: string, target: string): Expr {
    if typ in schema.types && target in schema.types[typ].rules then RuleTerm(target) else RelationTerm(target)
  }

  /**
   * The subject attains (obj, expr) along chains of at most n questions. A userset is
   * followed at its own relation; a node is the subject, or leads on when the relation
   * is transitive. With `strict` a subtracted side must not hold; without, it is ignored.
   */
  ghost predicate Attains(e: Evaluator, subject: NodeRef, now: int, strict: bool, n: nat, obj: NodeRef, expr: Expr)
    decreases n, expr
  {
    match expr
    case RelationTerm(rel) =>
      n > 0 && exists ed ::
        (Speaks(e, now, obj, rel, ed)
         && if ed.subject.relation != "" then
              Attains(e, subject, now, strict, n - 1, ed.subject.node, RelationTerm(ed.subject.relation))
            else
              || NamesSubject(e.schema.relations[rel], subject, ed)
              || (e.schema.relations[rel].transitive && Attains(e, subject, now, strict, n - 1, ed.subject.node, RelationTerm(rel))))
    case ArrowTerm(rel, target) =>
      n > 0 && exists ed ::
        (Speaks(e, now, obj, rel, ed)
         && Attains(e, subject, now, strict, n - 1, ed.subject.node, Asked(e.schema, ed.subject.node.typ, target)))
    case RuleTerm(a) =>
      && n > 0 && obj.typ in e.schema.types && a in e.schema.types[obj.typ].rules
      && Attains(e, subject, now, strict, n - 1, obj, e.schema.types[obj.typ].rules[a])
    case Union(terms) => exists t :: t in terms && Attains(e, subject, now, strict, n, obj, t)
    case Intersect(terms) => forall t :: t in terms ==> Attains(e, subject, now, strict, n, obj, t)
    case Exclude(base, subtract) =>
      Attains(e, subject, now, strict, n, obj, base) && (strict ==> !Attains(e, subject, now, strict, n, obj, subtract))
    case IdentTerm(_) => false
  }

  ghost predicate AttainsAction(e: Evaluator, subject: NodeRef, now: int, obj: NodeRef, action: string) {
    exists n: nat :: Attains(e, subject, now, false, n, obj, RuleTerm(action))
  }

  // ---- The meanings the walk is proved against are this one ----

  /** The edges the walk may cross are those that speak for the object. */
  lemma LiveSpeaks(e: Evaluator, subject: NodeRef, now: int, obj: NodeRef, term: Expr, ed: Edge)
    requires term.RelationTerm? || term.ArrowTerm?
    ensures Live(EnvOf(e, subject, now), obj, term, ed) <==> Speaks(e, now, obj, term.relation, ed)
  {
  }

  /** The least fixed point, or the compositional meaning. */
  ghost predicate Sense(env: Env, strict: bool, n: nat, obj: NodeRef, expr: Expr) {
    if strict then Holds(env, n, obj, expr) else Derives(env, n, obj, expr)
  }

  ghost predicate GoalSense(env: Env, strict: bool, n: nat, goal: Goal) {
    goal.Here? || (goal.Ask? && Sense(env, strict, n, goal.node, goal.term))
  }

  lemma {:induction false} AttainsIsSense(e: Evaluator, subject: NodeRef, now: int, strict: bool, n: nat, obj: NodeRef, expr: Expr)
    ensures Attains(e, subject, now, strict, n, obj, expr) <==> Sense(EnvOf(e, subject, now), strict, n, obj, expr)
    decreases n, expr
  {
    match expr
    case RelationTerm(rel) => RelationIsSense(e, subject, now, strict, n, obj, rel);
    case ArrowTerm(rel, target) => ArrowIsSense(e, subject, now, strict, n, obj, rel, target);
    case RuleTerm(a) =>
      if n > 0 && e.schema.HasRule(obj.typ, a) {
        AttainsIsSense(e, subject, now, strict, n - 1, obj, e.schema.Rule(obj.typ, a));
      }
    case Union(terms) => TermsAreSense(e, subject, now, strict, n, obj, expr, terms);
    case Intersect(terms) => TermsAreSense(e, subject, now, strict, n, obj, expr, terms);
    case Exclude(base, subtract) =>
      AttainsIsSense(e, subject, now, strict, n, obj, base);
      AttainsIsSense(e, subject, now, strict, n, obj, subtract);
    case IdentTerm(_) =>
  }

  lemma {:induction false} TermsAreSense(e: Evaluator, subject: NodeRef, now: int, strict: bool, n: nat, obj: NodeRef, expr: Expr, terms: seq<Expr>)
    requires forall t :: t in terms ==> t < expr
    ensures forall t :: t in terms ==> (Attains(e, subject, now, strict, n, obj, t) <==> Sense(EnvOf(e, subject, now), strict, n, obj, t))
    decreases n, expr, 0
  {
    forall t | t in terms ensures Attains(e, subject, now, strict, n, obj, t) <==> Sense(EnvOf(e, subject, now), strict, n, obj, t) {
      AttainsIsSense(e, subject, now, strict, n, obj, t);
    }
  }

  lemma {:induction false} RelationIsSense(e: Evaluator, subject: NodeRef, now: int, strict: bool, n: nat, obj: NodeRef, rel: string)
    ensures Attains(e, subject, now, strict, n, obj, RelationTerm(rel)) <==> Sense(EnvOf(e, subject, now), strict, n, obj, RelationTerm(rel))
    decreases n, RelationTerm(rel), 0
  {
    if n == 0 { return; }
    var env, term := EnvOf(e, subject, now), RelationTerm(rel);
    forall ed | Speaks(e, now, obj, rel, ed)
      ensures GoalSense(env, strict, n - 1, GoalOf(env, term, ed)) <==>
              if ed.subject.relation != "" then Attains(e, subject, now, strict, n - 1, ed.subject.node, RelationTerm(ed.subject.relation))
              else NamesSubject(e.schema.relations[rel], subject, ed)
                   || (e.schema.relations[rel].transitive && Attains(e, subject, now, strict, n - 1, ed.subject.node, RelationTerm(rel)))
    {
      AttainsIsSense(e, subject, now, strict, n - 1, ed.subject.node, if ed.subject.relation != "" then RelationTerm(ed.subject.relation) else term);
    }
    SenseOfTerm(env, strict, n, obj, term);
    forall ed ensures Live(env, obj, term, ed) <==> Speaks(e, now, obj, rel, ed) {
      LiveSpeaks(e, subject, now, obj, term, ed);
    }
  }

  lemma {:induction false} ArrowIsSense(e: Evaluator, subject: NodeRef, now: int, strict: bool, n: nat, obj: NodeRef, rel: string, target: string)
    ensures Attains(e, subject, now, strict, n, obj, ArrowTerm(rel, target)) <==> Sense(EnvOf(e, subject, now), strict, n, obj, ArrowTerm(rel, target))
    decreases n, ArrowTerm(rel, target), 0
  {
    if n == 0 { return; }
    var env, term := EnvOf(e, subject, now), ArrowTerm(rel, target);
    forall ed | Speaks(e, now, obj, rel, ed)
      ensures GoalSense(env, strict, n - 1, GoalOf(env, term, ed)) <==>
              Attains(e, subject, now, strict, n - 1, ed.subject.node, Asked(e.schema, ed.subject.node.typ, target))
    {
      AttainsIsSense(e, subject, now, strict, n - 1, ed.subject.node, Asked(e.schema, ed.subject.node.typ, target));
    }
    SenseOfTerm(env, strict, n, obj, term);
    forall ed ensures Live(env, obj, term, ed) <==> Speaks(e, now, obj, rel, ed) {
      LiveSpeaks(e, subject, now, obj, term, ed);
    }
  }

  lemma SenseOfTerm(env: Env, strict: bool, n: nat, obj: NodeRef, term: Expr)
    requires n > 0 && (term.RelationTerm? || term.ArrowTerm?)
    ensures Sense(env, strict, n, obj, term) <==> exists ed :: Live(env, obj, term, ed) && GoalSense(env, strict, n - 1, GoalOf(env, term, ed))
  {
    if Sense(env, strict, n, obj, term) {
      if strict {
        var ed :| Live(env, obj, term, ed) && GoalHolds(env, n - 1, GoalOf(env, term, ed));
        assert GoalSense(env, strict, n - 1, GoalOf(env, term, ed));
      } else {
        var ed :| Live(env, obj, term, ed) && GoalDerives(env, n - 1, GoalOf(env, term, ed));
        assert GoalSense(env, strict, n - 1, GoalOf(env, term, ed));
      }
    }
    if ed :| Live(env, obj, term, ed) && GoalSense(env, strict, n - 1, GoalOf(env, term, ed)) {
      assert if strict then GoalHolds(env, n - 1, GoalOf(env, term, ed)) else GoalDerives(env, n - 1, GoalOf(env, term, ed));
    }
  }

  // ---- Check decides it ----

  lemma AttainsActionIsMay(e: Evaluator, subject: NodeRef, now: int, obj: NodeRef, action: string)
    ensures AttainsAction(e, subject, now, obj, action) <==> May(EnvOf(e, subject, now), obj, action)
  {
    var env := EnvOf(e, subject, now);
    forall n: nat ensures Attains(e, subject, now, false, n, obj, RuleTerm(action)) <==> Derives(env, n, obj, RuleTerm(action)) {
      AttainsIsSense(e, subject, now, false, n, obj, RuleTerm(action));
    }
  }

  /** The decision of an additive schema, in terms of the edges alone. */
  lemma CheckDecidesAttainment(e: Evaluator, req: Request, now: int)
    requires Additive(e.schema)
    ensures var r := CheckSpec(e, req, now);
            r.Ok? ==>
              && (r.value.allowed <==> AttainsAction(e, req.subject, now, req.resource, req.action))
              && (r.value.reason == ReasonAllowed <==> r.value.allowed)
              && (r.value.reason == ReasonNoRule <==> !r.value.allowed && exists a :: AttainsAction(e, req.subject, now, req.resource, a))
              && (r.value.reason == ReasonUnreachable <==> forall a :: !AttainsAction(e, req.subject, now, req.resource, a))
  {
    CheckDecidesReachability(e, req, now);
    forall a ensures AttainsAction(e, req.subject, now, req.resource, a) <==> May(EnvOf(e, req.subject, now), req.resource, a) {
      AttainsActionIsMay(e, req.subject, now, req.resource, a);
    }
  }

  /** And that of the whole grammar on grounded data. */
  lemma GroundedCheckDecidesAttainment(e: Evaluator, n: nat, req: Request, now: int)
    requires GroundedResource(EnvOf(e, req.subject, now), n, req.resource)
    ensures var r := CheckSpec(e, req, now);
            r.Ok? ==> (r.value.allowed <==> Attains(e, req.subject, now, true, n + 1, req.resource, RuleTerm(req.action)))
  {
    CheckDecidesMeaning(e, n, req, now);
    AttainsIsSense(e, req.subject, now, true, n + 1, req.resource, RuleTerm(req.action));
  }
}
