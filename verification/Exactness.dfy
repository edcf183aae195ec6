/**
 * The walk decides the least fixed point on every finite or infinite, cyclic or
 * acyclic edge relation, as long as the rules it can enter use relations, rule
 * references, arrows and unions only (core/reach/walk.go:209-372).
 */
module Exactness {
  import opened Graph
  import opened Schemas
  import opened Walk
  import opened Semantics

  // The argument is the invariant of a depth-first search with a visited set: every
  // term marked dead has each of its continuations marked too, so the marks a failed
  // search leaves behind are closed, and nothing in a closed set of failures is
  // derivable.

  /** Relations, rule references and arrows into the named actions, and unions of them. */
  ghost predicate AdditiveExpr(actions: iset<string>, expr: Expr) {
    match expr
    case RelationTerm(_) => true
    case RuleTerm(a) => a in actions
    case ArrowTerm(_, target) => target in actions
    case Union(terms) => forall t :: t in terms ==> AdditiveExpr(actions, t)
    case _ => false
  }

  /** Every rule answering one of the actions is additive and stays inside them. */
  ghost predicate AdditiveOn(schema: Schema, actions: iset<string>) {
    forall typ, a :: a in actions && schema.HasRule(typ, a) ==> AdditiveExpr(actions, schema.Rule(typ, a))
  }

  ghost const EVERY_ACTION: iset<string> := iset a: string | true

  /** No rule of the schema intersects or subtracts. */
  ghost predicate Additive(schema: Schema) {
    AdditiveOn(schema, EVERY_ACTION)
  }

  /** Every memoised term the expression would try first is already marked. */
  ghost predicate Blocked(marked: set<Key>, obj: NodeRef, expr: Expr) {
    match expr
    case Union(terms) => forall t :: t in terms ==> Blocked(marked, obj, t)
    case RelationTerm(_) => Key(obj, expr) in marked
    case RuleTerm(_) => Key(obj, expr) in marked
    case ArrowTerm(_, _) => Key(obj, expr) in marked
    case _ => false
  }

  ghost predicate GoalBlocked(marked: set<Key>, goal: Goal) {
    match goal
    case Here => false
    case Nothing => true
    case Ask(node, term) => Blocked(marked, node, term)
  }

  ghost predicate EdgeBlocked(env: Env, marked: set<Key>, key: Key, ed: Edge)
    requires Declared(env, key.term)
  {
    GoalBlocked(marked, GoalOf(env, key.term, ed))
  }

  ghost predicate AllBlocked(env: Env, marked: set<Key>, key: Key, edges: seq<Edge>)
    requires Declared(env, key.term)
  {
    forall ed :: ed in edges && ed.Active(env.now) ==> EdgeBlocked(env, marked, key, ed)
  }

  /** Every continuation of the term is marked. */
  ghost predicate Exhausted(env: Env, marked: set<Key>, key: Key) {
    match key.term
    case RuleTerm(a) => env.schema.HasRule(key.obj.typ, a) ==> Blocked(marked, key.obj, env.schema.Rule(key.obj.typ, a))
    case _ =>
      && (key.term.RelationTerm? || key.term.ArrowTerm?)
      && forall ed :: Live(env, key.obj, key.term, ed) ==> EdgeBlocked(env, marked, key, ed)
  }

  /** Every dead term is exhausted, but for those whose failure was known beforehand. */
  ghost predicate DeadAreExhausted(env: Env, known: set<Key>, marks: map<Key, Mark>) {
    forall k :: k in marks && marks[k].Dead? && k !in known ==> Exhausted(env, marks.Keys, k)
  }

  /** What a failing call leaves: more dead terms, every dead term exhausted. */
  ghost predicate Settled(env: Env, known: set<Key>, before: Memo, after: Memo) {
    && after.excluded == before.excluded
    && before.marks.Keys <= after.marks.Keys
    && DeadAreExhausted(env, known, after.marks)
    && (forall k :: k in after.marks ==> after.marks[k] == if k in before.marks then before.marks[k] else Dead)
  }

  lemma {:induction false} BlockedGrows(marked: set<Key>, more: set<Key>, obj: NodeRef, expr: Expr)
    requires marked <= more && Blocked(marked, obj, expr)
    ensures Blocked(more, obj, expr)
    decreases expr
  {
    if expr.Union? {
      forall t | t in expr.terms ensures Blocked(more, obj, t) {
        BlockedGrows(marked, more, obj, t);
      }
    }
  }

  lemma ExhaustedGrows(env: Env, marked: set<Key>, more: set<Key>, key: Key)
    requires marked <= more && Exhausted(env, marked, key)
    ensures Exhausted(env, more, key)
  {
    if key.term.RuleTerm? {
      if env.schema.HasRule(key.obj.typ, key.term.action) {
        BlockedGrows(marked, more, key.obj, env.schema.Rule(key.obj.typ, key.term.action));
      }
    } else {
      forall ed | Live(env, key.obj, key.term, ed) ensures EdgeBlocked(env, more, key, ed) {
        assert EdgeBlocked(env, marked, key, ed);
        var g := GoalOf(env, key.term, ed);
        if g.Ask? {
          BlockedGrows(marked, more, g.node, g.term);
        }
      }
    }
  }

  lemma SettledTransitive(env: Env, known: set<Key>, a: Memo, b: Memo, c: Memo)
    requires Settled(env, known, a, b) && Settled(env, known, b, c)
    ensures Settled(env, known, a, c)
  {
  }

  /** Opening a term keeps the invariant; closing it as dead needs it exhausted. */
  lemma OpenedStaysExhausted(env: Env, known: set<Key>, memo: Memo, key: Key)
    requires DeadAreExhausted(env, known, memo.marks) && key !in memo.marks
    ensures DeadAreExhausted(env, known, Opened(memo, key).marks)
  {
    var entered := Opened(memo, key);
    forall k | k in entered.marks && entered.marks[k].Dead? && k !in known ensures Exhausted(env, entered.marks.Keys, k) {
      assert k in memo.marks && memo.marks[k].Dead?;
      ExhaustedGrows(env, memo.marks.Keys, entered.marks.Keys, k);
    }
  }

  lemma RememberSettles(env: Env, known: set<Key>, memo: Memo, key: Key, body: Answer)
    requires DeadAreExhausted(env, known, memo.marks)
    requires key !in memo.marks
    requires Settled(env, known, Opened(memo, key), body.memo) && body.out.Missed?
    requires Exhausted(env, body.memo.marks.Keys, key)
    ensures Settled(env, known, memo, Remember(key, memo, body).memo)
  {
    var after := Remember(key, memo, body).memo;
    assert after.marks.Keys == body.memo.marks.Keys;
    forall k | k in after.marks && after.marks[k].Dead? && k !in known ensures Exhausted(env, after.marks.Keys, k) {
      if k != key {
        assert k in body.memo.marks && body.memo.marks[k].Dead?;
      }
    }
  }

  lemma {:induction false} MissSettles(env: Env, actions: iset<string>, known: set<Key>, obj: NodeRef, expr: Expr, depth: nat, memo: Memo)
    requires AdditiveOn(env.schema, actions) && AdditiveExpr(actions, expr)
    requires DeadAreExhausted(env, known, memo.marks)
    ensures var r := Satisfies(env, obj, expr, depth, memo);
            r.out.Missed? ==> Settled(env, known, memo, r.memo) && Blocked(r.memo.marks.Keys, obj, expr)
    decreases Room(env, depth), Unentered(env, obj, memo), expr, 1
  {
    var r := Satisfies(env, obj, expr, depth, memo);
    var key := Key(obj, expr);
    if !r.out.Missed? { return; }
    if expr.Union? {
      AnyMissSettles(env, actions, known, obj, expr.terms, depth, memo);
    } else if key !in memo.marks {
      var entered := Opened(memo, key);
      OpenedStaysExhausted(env, known, memo, key);
      if expr.RuleTerm? {
        var a := expr.action;
        if env.schema.HasRule(obj.typ, a) {
          assert a in Unentered(env, obj, memo);
          assert Unentered(env, obj, entered) < Unentered(env, obj, memo);
          MissSettles(env, actions, known, obj, env.schema.Rule(obj.typ, a), depth, entered);
          RememberSettles(env, known, memo, key, Satisfies(env, obj, env.schema.Rule(obj.typ, a), depth, entered));
        } else {
          RememberSettles(env, known, memo, key, Answer(Missed, entered));
        }
      } else {
        var body := FollowTerm(env, obj, expr, depth, memo);
        assert r == Remember(key, memo, body);
        if Declared(env, expr) {
          FollowMissSettles(env, actions, known, obj, expr, OutEdges(env, obj, expr), depth, entered);
        }
        RememberSettles(env, known, memo, key, body);
      }
    }
  }

  lemma {:induction false} FollowMissSettles(env: Env, actions: iset<string>, known: set<Key>, obj: NodeRef, term: Expr, edges: seq<Edge>, depth: nat, memo: Memo)
    requires Declared(env, term) && depth <= env.maxDepth
    requires AdditiveOn(env.schema, actions) && AdditiveExpr(actions, term)
    requires DeadAreExhausted(env, known, memo.marks)
    ensures var r := Follow(env, term, edges, depth, memo);
            r.out.Missed? ==> Settled(env, known, memo, r.memo) && AllBlocked(env, r.memo.marks.Keys, Key(obj, term), edges)
    decreases 2 * (env.maxDepth - depth) + 1, 0, |edges|
  {
    var r := Follow(env, term, edges, depth, memo);
    if edges == [] || !r.out.Missed? { return; }
    var ed := edges[0];
    var mid := memo;
    if ed.Active(env.now) {
      var g := GoalOf(env, term, ed);
      if g.Ask? {
        MissSettles(env, actions, known, g.node, g.term, depth + 1, memo);
        mid := Satisfies(env, g.node, g.term, depth + 1, memo).memo;
      }
    }
    FollowMissSettles(env, actions, known, obj, term, edges[1..], depth, mid);
    SettledTransitive(env, known, memo, mid, r.memo);
    forall e | e in edges && e.Active(env.now) ensures EdgeBlocked(env, r.memo.marks.Keys, Key(obj, term), e) {
      if e in edges[1..] {
      } else {
        var g := GoalOf(env, term, e);
        if g.Ask? {
          BlockedGrows(mid.marks.Keys, r.memo.marks.Keys, g.node, g.term);
        }
      }
    }
  }

  lemma {:induction false} AnyMissSettles(env: Env, actions: iset<string>, known: set<Key>, obj: NodeRef, terms: seq<Expr>, depth: nat, memo: Memo)
    requires AdditiveOn(env.schema, actions)
    requires forall t :: t in terms ==> AdditiveExpr(actions, t)
    requires DeadAreExhausted(env, known, memo.marks)
    ensures var r := AnyOf(env, obj, terms, depth, memo);
            r.out.Missed? ==> Settled(env, known, memo, r.memo) && forall t :: t in terms ==> Blocked(r.memo.marks.Keys, obj, t)
    decreases Room(env, depth), Unentered(env, obj, memo), terms, 0
  {
    var r := AnyOf(env, obj, terms, depth, memo);
    if terms == [] || !r.out.Missed? { return; }
    MissSettles(env, actions, known, obj, terms[0], depth, memo);
    var mid := Satisfies(env, obj, terms[0], depth, memo).memo;
    AnyMissSettles(env, actions, known, obj, terms[1..], depth, mid);
    SettledTransitive(env, known, memo, mid, r.memo);
    forall t | t in terms ensures Blocked(r.memo.marks.Keys, obj, t) {
      if t == terms[0] {
        BlockedGrows(mid.marks.Keys, r.memo.marks.Keys, obj, t);
      } else {
        assert t in terms[1..];
      }
    }
  }

  /** Nothing blocked by a closed set of failures, or by questions known to fail, has a derivation of any height. */
  lemma {:induction false} BlockedUnderivable(env: Env, known: set<Key>, marked: set<Key>, n: nat, obj: NodeRef, expr: Expr)
    requires forall k :: k in known ==> !Derivable(env, k.obj, k.term)
    requires forall k :: k in marked && k !in known ==> Exhausted(env, marked, k)
    requires Blocked(marked, obj, expr)
    ensures !Derives(env, n, obj, expr)
    decreases n, expr
  {
    if Derives(env, n, obj, expr) {
      var key := Key(obj, expr);
      if expr.Union? {
        var t :| t in expr.terms && Derives(env, n, obj, t);
        BlockedUnderivable(env, known, marked, n, obj, t);
      } else if key in known {
        assert Derivable(env, key.obj, key.term);
      } else if expr.RuleTerm? {
        assert Exhausted(env, marked, key);
        BlockedUnderivable(env, known, marked, n - 1, obj, env.schema.Rule(obj.typ, expr.action));
      } else if expr.RelationTerm? || expr.ArrowTerm? {
        assert Exhausted(env, marked, key);
        var ed :| Live(env, obj, expr, ed) && GoalDerives(env, n - 1, GoalOf(env, expr, ed));
        assert EdgeBlocked(env, marked, key, ed);
        var g := GoalOf(env, expr, ed);
        if g.Ask? {
          BlockedUnderivable(env, known, marked, n - 1, g.node, g.term);
        }
      }
    }
  }

  /** Every mark is dead, and nothing marked has a derivation. */
  ghost predicate TrueNegatives(env: Env, marks: map<Key, Mark>) {
    forall k :: k in marks ==> marks[k].Dead? && !Derivable(env, k.obj, k.term)
  }

  /**
   * A walk that misses without an error proves there is no derivation at all, from
   * any memo that holds nothing but true negatives, and leaves such a memo.
   */
  lemma MissIsUnderivable(env: Env, actions: iset<string>, obj: NodeRef, expr: Expr, depth: nat, memo: Memo)
    requires AdditiveOn(env.schema, actions) && AdditiveExpr(actions, expr)
    requires TrueNegatives(env, memo.marks)
    requires Satisfies(env, obj, expr, depth, memo).out.Missed?
    ensures !Derivable(env, obj, expr)
    ensures TrueNegatives(env, Satisfies(env, obj, expr, depth, memo).memo.marks)
  {
    var known := memo.marks.Keys;
    MissSettles(env, actions, known, obj, expr, depth, memo);
    var marks := Satisfies(env, obj, expr, depth, memo).memo.marks;
    forall n: nat ensures !Derives(env, n, obj, expr) {
      BlockedUnderivable(env, known, marks.Keys, n, obj, expr);
    }
    forall k | k in marks ensures !Derivable(env, k.obj, k.term) {
      MarkedUnderivable(env, known, marks.Keys, k);
    }
  }

  lemma MarkedUnderivable(env: Env, known: set<Key>, marked: set<Key>, k: Key)
    requires forall key :: key in known ==> !Derivable(env, key.obj, key.term)
    requires forall key :: key in marked && key !in known ==> Exhausted(env, marked, key)
    requires k in marked
    ensures !Derivable(env, k.obj, k.term)
  {
    if k !in known {
      forall n: nat ensures !Derives(env, n, k.obj, k.term) {
        BlockedUnderivable(env, known, marked, n, k.obj, k.term);
      }
    }
  }
}
