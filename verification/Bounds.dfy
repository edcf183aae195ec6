/**
 * The depth bound is a circuit breaker and never part of the answer
 * (core/reach/walk.go:11-14, 209-212).
 */
module Bounds {
  import opened Graph
  import opened Schemas
  import opened Walk

  predicate HitBound(out: Outcome) {
    out.Failed? && out.error.DepthExceeded?
  }

  // ---- A larger bound changes nothing ----

  lemma {:induction false} LargerBound(env: Env, bound: nat, obj: NodeRef, expr: Expr, depth: nat, memo: Memo)
    requires env.maxDepth <= bound
    requires !HitBound(Satisfies(env, obj, expr, depth, memo).out)
    ensures Satisfies(env.(maxDepth := bound), obj, expr, depth, memo) == Satisfies(env, obj, expr, depth, memo)
    decreases Room(env, depth), Unentered(env, obj, memo), expr, 1
  {
    var wide := env.(maxDepth := bound);
    var entered := Opened(memo, Key(obj, expr));
    match expr
    case IdentTerm(_) =>
    case Union(terms) => LargerBoundAny(env, bound, obj, terms, depth, memo);
    case Intersect(terms) => LargerBoundAll(env, bound, obj, terms, depth, memo);
    case Exclude(base, subtract) =>
      LargerBound(env, bound, obj, base, depth, memo);
      var b := Satisfies(env, obj, base, depth, memo);
      if b.out.Matched? {
        LargerBound(env, bound, obj, subtract, depth, b.memo);
      }
    case RuleTerm(a) =>
      if Key(obj, expr) !in memo.marks && env.schema.HasRule(obj.typ, a) {
        assert a in Unentered(env, obj, memo);
        assert Unentered(env, obj, entered) < Unentered(env, obj, memo);
        LargerBound(env, bound, obj, env.schema.Rule(obj.typ, a), depth, entered);
      }
    case RelationTerm(_) => LargerBoundTerm(env, bound, obj, expr, depth, memo);
    case ArrowTerm(_, _) => LargerBoundTerm(env, bound, obj, expr, depth, memo);
  }

  lemma {:induction false} LargerBoundTerm(env: Env, bound: nat, obj: NodeRef, term: Expr, depth: nat, memo: Memo)
    requires term.RelationTerm? || term.ArrowTerm?
    requires env.maxDepth <= bound
    requires !HitBound(Satisfies(env, obj, term, depth, memo).out)
    ensures Satisfies(env.(maxDepth := bound), obj, term, depth, memo) == Satisfies(env, obj, term, depth, memo)
    decreases 2 * (if depth <= env.maxDepth then env.maxDepth - depth else 0) + 1, 1
  {
    var key := Key(obj, term);
    var wide := env.(maxDepth := bound);
    assert Satisfies(env, obj, term, depth, memo) == Remember(key, memo, FollowTerm(env, obj, term, depth, memo));
    assert Satisfies(wide, obj, term, depth, memo) == Remember(key, memo, FollowTerm(wide, obj, term, depth, memo));
    if key !in memo.marks && Declared(env, term) {
      LargerBoundFollow(env, bound, term, OutEdges(env, obj, term), depth, Opened(memo, key));
    }
  }

  lemma {:induction false} LargerBoundFollow(env: Env, bound: nat, term: Expr, edges: seq<Edge>, depth: nat, memo: Memo)
    requires Declared(env, term) && depth <= env.maxDepth <= bound
    requires !HitBound(Follow(env, term, edges, depth, memo).out)
    ensures Follow(env.(maxDepth := bound), term, edges, depth, memo) == Follow(env, term, edges, depth, memo)
    decreases 2 * (env.maxDepth - depth) + 1, 0, |edges|
  {
    if edges == [] { return; }
    var ed := edges[0];
    if !ed.Active(env.now) {
      LargerBoundFollow(env, bound, term, edges[1..], depth, memo);
    } else {
      match GoalOf(env, term, ed)
      case Here =>
      case Nothing => LargerBoundFollow(env, bound, term, edges[1..], depth, memo);
      case Ask(node, next) =>
        LargerBound(env, bound, node, next, depth + 1, memo);
        var a := Satisfies(env, node, next, depth + 1, memo);
        if a.out.Missed? {
          LargerBoundFollow(env, bound, term, edges[1..], depth, a.memo);
        }
    }
  }

  lemma {:induction false} LargerBoundAny(env: Env, bound: nat, obj: NodeRef, terms: seq<Expr>, depth: nat, memo: Memo)
    requires env.maxDepth <= bound
    requires !HitBound(AnyOf(env, obj, terms, depth, memo).out)
    ensures AnyOf(env.(maxDepth := bound), obj, terms, depth, memo) == AnyOf(env, obj, terms, depth, memo)
    decreases Room(env, depth), Unentered(env, obj, memo), terms, 0
  {
    if terms == [] { return; }
    LargerBound(env, bound, obj, terms[0], depth, memo);
    var a := Satisfies(env, obj, terms[0], depth, memo);
    if a.out.Missed? {
      LargerBoundAny(env, bound, obj, terms[1..], depth, a.memo);
    }
  }

  lemma {:induction false} LargerBoundAll(env: Env, bound: nat, obj: NodeRef, terms: seq<Expr>, depth: nat, memo: Memo)
    requires env.maxDepth <= bound
    requires !HitBound(AllOf(env, obj, terms, depth, memo).out)
    ensures AllOf(env.(maxDepth := bound), obj, terms, depth, memo) == AllOf(env, obj, terms, depth, memo)
    decreases Room(env, depth), Unentered(env, obj, memo), terms, 0
  {
    if terms == [] { return; }
    LargerBound(env, bound, obj, terms[0], depth, memo);
    var a := Satisfies(env, obj, terms[0], depth, memo);
    if a.out.Matched? {
      LargerBoundAll(env, bound, obj, terms[1..], depth, a.memo);
    }
  }

  // ---- Over finitely many questions some bound is never reached ----

  /** Every memoised term the expression can ask at this object is in the set. */
  ghost predicate Inside(keys: iset<Key>, obj: NodeRef, expr: Expr) {
    match expr
    case RelationTerm(_) => Key(obj, expr) in keys
    case RuleTerm(_) => Key(obj, expr) in keys
    case ArrowTerm(_, _) => Key(obj, expr) in keys
    case Union(terms) => forall t :: t in terms ==> Inside(keys, obj, t)
    case Intersect(terms) => forall t :: t in terms ==> Inside(keys, obj, t)
    case Exclude(base, subtract) => Inside(keys, obj, base) && Inside(keys, obj, subtract)
    case IdentTerm(_) => false
  }

  ghost predicate EdgeInside(env: Env, keys: iset<Key>, term: Expr, ed: Edge)
    requires Declared(env, term)
  {
    var g := GoalOf(env, term, ed);
    g.Ask? ==> Inside(keys, g.node, g.term)
  }

  /** Every question the key leads to directly is in the set. */
  ghost predicate AsksInside(env: Env, keys: iset<Key>, k: Key) {
    if k.term.RuleTerm? then
      env.schema.HasRule(k.obj.typ, k.term.action) ==> Inside(keys, k.obj, env.schema.Rule(k.obj.typ, k.term.action))
    else
      Declared(env, k.term) ==> forall ed :: ed in OutEdges(env, k.obj, k.term) && ed.Active(env.now) ==> EdgeInside(env, keys, k.term, ed)
  }

  /** The set of questions is closed under asking the next one. */
  ghost predicate ClosedUnderAsking(env: Env, keys: iset<Key>) {
    forall k :: k in keys ==> AsksInside(env, keys, k)
  }

  /** A finite set of questions as a set that need not be. */
  ghost function All(keys: set<Key>): iset<Key> {
    iset k | k in keys
  }

  function OpenKeys(memo: Memo): set<Key> {
    set k | k in memo.marks && memo.marks[k].Open?
  }

  /** The call does not fail, and closes exactly the terms it opened. */
  ghost predicate Completes(before: Memo, r: Answer) {
    !r.out.Failed? && OpenKeys(r.memo) == OpenKeys(before)
  }

  /** The depth never exceeds the number of open questions, so it never reaches |keys|. */
  ghost predicate Roomy(env: Env, keys: set<Key>, depth: nat, memo: Memo) {
    && ClosedUnderAsking(env, All(keys))
    && |keys| <= env.maxDepth
    && OpenKeys(memo) <= keys
    && depth <= |OpenKeys(memo)|
  }

  lemma SubsetSize<T>(a: set<T>, b: set<T>)
    requires a <= b
    ensures |a| <= |b|
  {
    assert b == a + (b - a);
  }

  lemma OpeningMakesRoom(env: Env, keys: set<Key>, depth: nat, memo: Memo, key: Key)
    requires Roomy(env, keys, depth, memo) && key in keys && key !in memo.marks
    ensures Roomy(env, keys, depth + 1, Opened(memo, key))
    ensures OpenKeys(Opened(memo, key)) == OpenKeys(memo) + {key}
  {
    assert OpenKeys(Opened(memo, key)) == OpenKeys(memo) + {key};
  }

  lemma RememberCompletes(memo: Memo, key: Key, body: Answer)
    requires key !in memo.marks ==> Completes(Opened(memo, key), body)
    ensures Completes(memo, Remember(key, memo, body))
  {
    if key !in memo.marks {
      assert OpenKeys(Opened(memo, key)) == OpenKeys(memo) + {key};
      assert OpenKeys(Remember(key, memo, body).memo) == OpenKeys(body.memo) - {key};
    }
  }

  lemma {:induction false} NeverFails(env: Env, keys: set<Key>, obj: NodeRef, expr: Expr, depth: nat, memo: Memo)
    requires Roomy(env, keys, depth, memo) && Inside(All(keys), obj, expr)
    ensures Completes(memo, Satisfies(env, obj, expr, depth, memo))
    decreases Room(env, depth), Unentered(env, obj, memo), expr, 1
  {
    SubsetSize(OpenKeys(memo), keys);
    var key := Key(obj, expr);
    var entered := Opened(memo, key);
    match expr
    case Union(terms) => AnyNeverFails(env, keys, obj, terms, depth, memo);
    case Intersect(terms) => AllNeverFails(env, keys, obj, terms, depth, memo);
    case Exclude(base, subtract) =>
      NeverFails(env, keys, obj, base, depth, memo);
      var b := Satisfies(env, obj, base, depth, memo);
      if b.out.Matched? {
        NeverFails(env, keys, obj, subtract, depth, b.memo);
        var s := Satisfies(env, obj, subtract, depth, b.memo);
        assert OpenKeys(s.memo.(excluded := true)) == OpenKeys(s.memo);
      }
    case RuleTerm(a) =>
      var body := Answer(Missed, entered);
      if key !in memo.marks {
        OpeningMakesRoom(env, keys, depth, memo, key);
        if env.schema.HasRule(obj.typ, a) {
          assert a in Unentered(env, obj, memo);
          assert Unentered(env, obj, entered) < Unentered(env, obj, memo);
          NeverFails(env, keys, obj, env.schema.Rule(obj.typ, a), depth, entered);
          body := Satisfies(env, obj, env.schema.Rule(obj.typ, a), depth, entered);
        }
      }
      RememberCompletes(memo, key, body);
    case RelationTerm(_) => TermNeverFails(env, keys, obj, expr, depth, memo);
    case ArrowTerm(_, _) => TermNeverFails(env, keys, obj, expr, depth, memo);
  }

  lemma {:induction false} TermNeverFails(env: Env, keys: set<Key>, obj: NodeRef, term: Expr, depth: nat, memo: Memo)
    requires term.RelationTerm? || term.ArrowTerm?
    requires depth <= env.maxDepth
    requires Roomy(env, keys, depth, memo) && Inside(All(keys), obj, term)
    ensures Completes(memo, Satisfies(env, obj, term, depth, memo))
    decreases 2 * (env.maxDepth - depth) + 1, 1
  {
    var key := Key(obj, term);
    var body := FollowTerm(env, obj, term, depth, memo);
    if key !in memo.marks {
      OpeningMakesRoom(env, keys, depth, memo, key);
      if Declared(env, term) {
        FollowNeverFails(env, keys, term, OutEdges(env, obj, term), depth, Opened(memo, key));
      }
    }
    RememberCompletes(memo, key, body);
    assert Satisfies(env, obj, term, depth, memo) == Remember(key, memo, body);
  }

  lemma {:induction false} FollowNeverFails(env: Env, keys: set<Key>, term: Expr, edges: seq<Edge>, depth: nat, memo: Memo)
    requires Declared(env, term) && depth <= env.maxDepth
    requires Roomy(env, keys, depth + 1, memo)
    requires forall ed :: ed in edges && ed.Active(env.now) ==> EdgeInside(env, All(keys), term, ed)
    ensures Completes(memo, Follow(env, term, edges, depth, memo))
    decreases 2 * (env.maxDepth - depth) + 1, 0, |edges|
  {
    if edges == [] { return; }
    var ed := edges[0];
    assert forall e :: e in edges[1..] ==> e in edges;
    var mid := memo;
    if ed.Active(env.now) {
      var g := GoalOf(env, term, ed);
      if g.Here? { return; }
      if g.Ask? {
        NeverFails(env, keys, g.node, g.term, depth + 1, memo);
        var a := Satisfies(env, g.node, g.term, depth + 1, memo);
        if a.out.Matched? { return; }
        mid := a.memo;
      }
    }
    FollowNeverFails(env, keys, term, edges[1..], depth, mid);
  }

  lemma {:induction false} AnyNeverFails(env: Env, keys: set<Key>, obj: NodeRef, terms: seq<Expr>, depth: nat, memo: Memo)
    requires Roomy(env, keys, depth, memo)
    requires forall t :: t in terms ==> Inside(All(keys), obj, t)
    ensures Completes(memo, AnyOf(env, obj, terms, depth, memo))
    decreases Room(env, depth), Unentered(env, obj, memo), terms, 0
  {
    if terms == [] { return; }
    NeverFails(env, keys, obj, terms[0], depth, memo);
    var a := Satisfies(env, obj, terms[0], depth, memo);
    if a.out.Missed? {
      AnyNeverFails(env, keys, obj, terms[1..], depth, a.memo);
    }
  }

  lemma {:induction false} AllNeverFails(env: Env, keys: set<Key>, obj: NodeRef, terms: seq<Expr>, depth: nat, memo: Memo)
    requires Roomy(env, keys, depth, memo)
    requires forall t :: t in terms ==> Inside(All(keys), obj, t)
    ensures Completes(memo, AllOf(env, obj, terms, depth, memo))
    decreases Room(env, depth), Unentered(env, obj, memo), terms, 0
  {
    if terms == [] { return; }
    NeverFails(env, keys, obj, terms[0], depth, memo);
    var a := Satisfies(env, obj, terms[0], depth, memo);
    if a.out.Matched? {
      AllNeverFails(env, keys, obj, terms[1..], depth, a.memo);
    }
  }

  // ---- Finitely many edges give finitely many questions ----

  /** The terms an expression can ask at its own object. */
  function Leaves(expr: Expr): set<Expr> {
    match expr
    case Union(terms) => set t, l | t in terms && l in Leaves(t) :: l
    case Intersect(terms) => set t, l | t in terms && l in Leaves(t) :: l
    case Exclude(base, subtract) => Leaves(base) + Leaves(subtract)
    case _ => {expr}
  }

  predicate Resolved(expr: Expr) {
    match expr
    case Union(terms) => forall t :: t in terms ==> Resolved(t)
    case Intersect(terms) => forall t :: t in terms ==> Resolved(t)
    case Exclude(base, subtract) => Resolved(base) && Resolved(subtract)
    case IdentTerm(_) => false
    case _ => true
  }

  /** No bare identifier is left in any rule. */
  predicate AllResolved(schema: Schema) {
    forall typ, a | typ in schema.types && a in schema.types[typ].rules :: Resolved(schema.types[typ].rules[a])
  }

  lemma {:induction false} LeavesInside(keys: iset<Key>, obj: NodeRef, expr: Expr)
    requires Resolved(expr)
    requires forall l :: l in Leaves(expr) ==> Key(obj, l) in keys
    ensures Inside(keys, obj, expr)
    decreases expr
  {
    match expr
    case Union(terms) =>
      forall t | t in terms ensures Inside(keys, obj, t) {
        assert forall l :: l in Leaves(t) ==> l in Leaves(expr);
        LeavesInside(keys, obj, t);
      }
    case Intersect(terms) =>
      forall t | t in terms ensures Inside(keys, obj, t) {
        assert forall l :: l in Leaves(t) ==> l in Leaves(expr);
        LeavesInside(keys, obj, t);
      }
    case Exclude(base, subtract) =>
      LeavesInside(keys, obj, base);
      LeavesInside(keys, obj, subtract);
    case _ =>
      assert expr in Leaves(expr);
  }

  /** Every edge any lookup returns is one of these. */
  ghost predicate FiniteEdges(env: Env, store: set<Edge>) {
    forall obj: NodeRef, rel: string, ed :: ed in env.edges(obj, rel) ==> ed in store
  }

  /** All the terms a walk over the store can ask: rule leaves, userset relations, far terms. */
  function Terms(schema: Schema, store: set<Edge>, expr: Expr): set<Expr> {
    var written := Leaves(expr) + set typ, a, l | typ in schema.types && a in schema.types[typ].rules && l in Leaves(schema.types[typ].rules[a]) :: l;
    written
    + (set ed | ed in store :: RelationTerm(ed.subject.relation))
    + (set l | l in written && l.ArrowTerm? :: RelationTerm(l.target))
    + (set l | l in written && l.ArrowTerm? :: RuleTerm(l.target))
  }

  function Questions(schema: Schema, store: set<Edge>, obj: NodeRef, expr: Expr): set<Key> {
    var nodes := {obj} + set ed | ed in store :: ed.subject.node;
    set n, t | n in nodes && t in Terms(schema, store, expr) :: Key(n, t)
  }

  lemma QuestionsClosed(env: Env, store: set<Edge>, obj: NodeRef, expr: Expr)
    requires FiniteEdges(env, store) && AllResolved(env.schema) && Resolved(expr)
    ensures ClosedUnderAsking(env, All(Questions(env.schema, store, obj, expr)))
    ensures Inside(All(Questions(env.schema, store, obj, expr)), obj, expr)
  {
    var keys := All(Questions(env.schema, store, obj, expr));
    forall l | l in Leaves(expr) ensures Key(obj, l) in Questions(env.schema, store, obj, expr) {
      assert l in Terms(env.schema, store, expr);
    }
    LeavesInside(keys, obj, expr);
    forall k | k in Questions(env.schema, store, obj, expr) ensures AsksInside(env, keys, k) {
      if k.term.RuleTerm? {
        if env.schema.HasRule(k.obj.typ, k.term.action) {
          RuleQuestionsInside(env, store, obj, expr, k);
        }
      } else if Declared(env, k.term) {
        forall ed | ed in OutEdges(env, k.obj, k.term) ensures EdgeInside(env, keys, k.term, ed) {
          EdgeQuestionInside(env, store, obj, expr, k, ed);
        }
      }
    }
  }

  lemma RuleQuestionsInside(env: Env, store: set<Edge>, obj: NodeRef, expr: Expr, k: Key)
    requires AllResolved(env.schema)
    requires k in Questions(env.schema, store, obj, expr) && k.term.RuleTerm? && env.schema.HasRule(k.obj.typ, k.term.action)
    ensures Inside(All(Questions(env.schema, store, obj, expr)), k.obj, env.schema.Rule(k.obj.typ, k.term.action))
  {
    var body := env.schema.types[k.obj.typ].rules[k.term.action];
    assert Resolved(body);
    forall l | l in Leaves(body) ensures Key(k.obj, l) in Questions(env.schema, store, obj, expr) {
      assert l in Terms(env.schema, store, expr);
    }
    LeavesInside(All(Questions(env.schema, store, obj, expr)), k.obj, body);
  }

  lemma EdgeQuestionInside(env: Env, store: set<Edge>, obj: NodeRef, expr: Expr, k: Key, ed: Edge)
    requires FiniteEdges(env, store)
    requires k in Questions(env.schema, store, obj, expr) && Declared(env, k.term) && ed in OutEdges(env, k.obj, k.term)
    ensures EdgeInside(env, All(Questions(env.schema, store, obj, expr)), k.term, ed)
  {
    assert ed in store;
    assert k.term in Terms(env.schema, store, expr);
    assert RelationTerm(ed.subject.relation) in Terms(env.schema, store, expr);
  }

  /** A walk over finitely many edges never fails once the bound exceeds the number of questions. */
  lemma EnoughDepthNeverFails(env: Env, store: set<Edge>, obj: NodeRef, expr: Expr)
    requires FiniteEdges(env, store) && AllResolved(env.schema) && Resolved(expr)
    requires |Questions(env.schema, store, obj, expr)| <= env.maxDepth
    ensures !Satisfies(env, obj, expr, 0, EMPTY_MEMO).out.Failed?
  {
    var keys := Questions(env.schema, store, obj, expr);
    QuestionsClosed(env, store, obj, expr);
    assert OpenKeys(EMPTY_MEMO) == {};
    NeverFails(env, keys, obj, expr, 0, EMPTY_MEMO);
  }
}
