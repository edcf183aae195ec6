/**
 * Intersection and subtraction on cyclic data: exact where every question the
 * operands share is grounded (core/reach/walk.go:233-268, 272-293).
 */
module Separation {
  import opened Wrappers
  import opened Graph
  import opened Schemas
  import opened Walk
  import opened Semantics
  import opened Soundness
  import opened Exactness
  import opened Grounding
  import opened Bounds
  import opened Checks

  // ---- A walk neither reads nor changes marks outside its own questions ----

  /** The memo with more marks underneath. */
  function Over(outside: map<Key, Mark>, memo: Memo): Memo {
    memo.(marks := outside + memo.marks)
  }

  function AnswerOver(outside: map<Key, Mark>, a: Answer): Answer {
    Answer(a.out, Over(outside, a.memo))
  }

  /** The memo marks questions of the set only, the marks underneath none of them. */
  ghost predicate Split(keys: iset<Key>, outside: map<Key, Mark>, memo: Memo) {
    (forall k :: k in outside ==> k !in keys) && (forall k :: k in memo.marks ==> k in keys)
  }

  lemma OpenedOver(keys: iset<Key>, outside: map<Key, Mark>, memo: Memo, key: Key)
    requires Split(keys, outside, memo) && key in keys
    ensures Opened(Over(outside, memo), key) == Over(outside, Opened(memo, key))
    ensures Split(keys, outside, Opened(memo, key))
    ensures key in Over(outside, memo).marks <==> key in memo.marks
  {
    assert (outside + memo.marks)[key := Open] == outside + memo.marks[key := Open];
  }

  lemma RememberOver(keys: iset<Key>, outside: map<Key, Mark>, memo: Memo, key: Key, body: Answer)
    requires Split(keys, outside, memo) && Split(keys, outside, body.memo) && key in keys
    ensures Remember(key, Over(outside, memo), AnswerOver(outside, body)) == AnswerOver(outside, Remember(key, memo, body))
    ensures Split(keys, outside, Remember(key, memo, body).memo)
  {
    var marks := body.memo.marks;
    assert (outside + marks)[key := Dead] == outside + marks[key := Dead];
    assert (outside + marks) - {key} == outside + (marks - {key});
  }

  /** The call gives the same answer and marks with more underneath, and keeps to its questions. */
  ghost predicate IsFramed(env: Env, keys: iset<Key>, outside: map<Key, Mark>, obj: NodeRef, expr: Expr, depth: nat, memo: Memo) {
    && Satisfies(env, obj, expr, depth, Over(outside, memo)) == AnswerOver(outside, Satisfies(env, obj, expr, depth, memo))
    && Split(keys, outside, Satisfies(env, obj, expr, depth, memo).memo)
  }

  /** The answer, and what becomes of the questions of the set, do not depend on the rest of the memo. */
  lemma {:induction false} Framed(env: Env, keys: iset<Key>, outside: map<Key, Mark>, obj: NodeRef, expr: Expr, depth: nat, memo: Memo)
    requires ClosedUnderAsking(env, keys) && Inside(keys, obj, expr) && Split(keys, outside, memo)
    ensures IsFramed(env, keys, outside, obj, expr, depth, memo)
    decreases Room(env, depth), Unentered(env, obj, memo), expr, 1
  {
    if depth > env.maxDepth { return; }
    match expr {
      case Union(terms) => AnyFramed(env, keys, outside, obj, terms, depth, memo);
      case Intersect(terms) => AllFramed(env, keys, outside, obj, terms, depth, memo);
      case Exclude(base, subtract) =>
        Framed(env, keys, outside, obj, base, depth, memo);
        var b := Satisfies(env, obj, base, depth, memo);
        if b.out.Matched? {
          Framed(env, keys, outside, obj, subtract, depth, b.memo);
        }
        ExcludeFramed(env, keys, outside, obj, expr, depth, memo);
      case RuleTerm(a) => RuleFramed(env, keys, outside, obj, a, depth, memo);
      case RelationTerm(_) => TermFramed(env, keys, outside, obj, expr, depth, memo);
      case ArrowTerm(_, _) => TermFramed(env, keys, outside, obj, expr, depth, memo);
    }
  }

  lemma ExcludeFramed(env: Env, keys: iset<Key>, outside: map<Key, Mark>, obj: NodeRef, expr: Expr, depth: nat, memo: Memo)
    requires depth <= env.maxDepth && expr.Exclude?
    requires IsFramed(env, keys, outside, obj, expr.base, depth, memo)
    requires var b := Satisfies(env, obj, expr.base, depth, memo);
             b.out.Matched? ==> IsFramed(env, keys, outside, obj, expr.subtract, depth, b.memo)
    ensures IsFramed(env, keys, outside, obj, expr, depth, memo)
  {
    var b := Satisfies(env, obj, expr.base, depth, memo);
    ExcludeAnswer(env, obj, expr, depth, memo);
    ExcludeAnswer(env, obj, expr, depth, Over(outside, memo));
    if b.out.Matched? {
      SubtractedOver(keys, outside, b, Satisfies(env, obj, expr.subtract, depth, b.memo));
    }
  }

  /** The answer of a subtraction from those of its two sides. */
  function Subtracted(b: Answer, s: Answer): Answer {
    match s.out
    case Failed(_) => s
    case Matched(_) => Answer(Missed, s.memo.(excluded := true))
    case Missed => Answer(b.out, s.memo)
  }

  lemma SubtractedOver(keys: iset<Key>, outside: map<Key, Mark>, b: Answer, s: Answer)
    requires Split(keys, outside, s.memo)
    ensures Subtracted(AnswerOver(outside, b), AnswerOver(outside, s)) == AnswerOver(outside, Subtracted(b, s))
    ensures Split(keys, outside, Subtracted(b, s).memo)
  {
  }

  lemma ExcludeAnswer(env: Env, obj: NodeRef, expr: Expr, depth: nat, memo: Memo)
    requires depth <= env.maxDepth && expr.Exclude?
    ensures var b := Satisfies(env, obj, expr.base, depth, memo);
            Satisfies(env, obj, expr, depth, memo)
            == (if b.out.Matched? then Subtracted(b, Satisfies(env, obj, expr.subtract, depth, b.memo)) else b)
  {
  }

  lemma {:induction false} RuleFramed(env: Env, keys: iset<Key>, outside: map<Key, Mark>, obj: NodeRef, a: string, depth: nat, memo: Memo)
    requires depth <= env.maxDepth
    requires ClosedUnderAsking(env, keys) && Key(obj, RuleTerm(a)) in keys && Split(keys, outside, memo)
    ensures IsFramed(env, keys, outside, obj, RuleTerm(a), depth, memo)
    decreases Room(env, depth), Unentered(env, obj, memo), RuleTerm(a), 0
  {
    var key := Key(obj, RuleTerm(a));
    var entered := Opened(memo, key);
    OpenedOver(keys, outside, memo, key);
    TermAnswer(env, obj, RuleTerm(a), depth, memo);
    TermAnswer(env, obj, RuleTerm(a), depth, Over(outside, memo));
    if key !in memo.marks {
      assert AsksInside(env, keys, key);
      if env.schema.HasRule(obj.typ, a) {
        assert a in Unentered(env, obj, memo);
        assert Unentered(env, obj, entered) < Unentered(env, obj, memo);
        Framed(env, keys, outside, obj, env.schema.Rule(obj.typ, a), depth, entered);
      }
      RememberOver(keys, outside, memo, key, TermBody(env, obj, RuleTerm(a), depth, entered));
    }
  }

  lemma {:induction false} TermFramed(env: Env, keys: iset<Key>, outside: map<Key, Mark>, obj: NodeRef, term: Expr, depth: nat, memo: Memo)
    requires term.RelationTerm? || term.ArrowTerm?
    requires depth <= env.maxDepth
    requires ClosedUnderAsking(env, keys) && Key(obj, term) in keys && Split(keys, outside, memo)
    ensures IsFramed(env, keys, outside, obj, term, depth, memo)
    decreases 2 * (env.maxDepth - depth) + 1, 1
  {
    var key := Key(obj, term);
    var entered := Opened(memo, key);
    OpenedOver(keys, outside, memo, key);
    TermAnswer(env, obj, term, depth, memo);
    TermAnswer(env, obj, term, depth, Over(outside, memo));
    if key !in memo.marks {
      assert AsksInside(env, keys, key);
      if Declared(env, term) {
        FollowFramed(env, keys, outside, term, OutEdges(env, obj, term), depth, entered);
      }
      RememberOver(keys, outside, memo, key, TermBody(env, obj, term, depth, entered));
    }
  }

  lemma {:induction false} FollowFramed(env: Env, keys: iset<Key>, outside: map<Key, Mark>, term: Expr, edges: seq<Edge>, depth: nat, memo: Memo)
    requires Declared(env, term) && depth <= env.maxDepth
    requires ClosedUnderAsking(env, keys) && Split(keys, outside, memo)
    requires forall ed :: ed in edges && ed.Active(env.now) ==> EdgeInside(env, keys, term, ed)
    ensures Follow(env, term, edges, depth, Over(outside, memo)) == AnswerOver(outside, Follow(env, term, edges, depth, memo))
    ensures Split(keys, outside, Follow(env, term, edges, depth, memo).memo)
    decreases 2 * (env.maxDepth - depth) + 1, 0, |edges|
  {
    if edges == [] { return; }
    var ed := edges[0];
    assert forall e :: e in edges[1..] ==> e in edges;
    var mid := memo;
    if ed.Active(env.now) {
      var g := GoalOf(env, term, ed);
      if g.Here? { return; }
      if g.Ask? {
        Framed(env, keys, outside, g.node, g.term, depth + 1, memo);
        var a := Satisfies(env, g.node, g.term, depth + 1, memo);
        if !a.out.Missed? { return; }
        mid := a.memo;
      }
    }
    FollowFramed(env, keys, outside, term, edges[1..], depth, mid);
  }

  lemma {:induction false} AnyFramed(env: Env, keys: iset<Key>, outside: map<Key, Mark>, obj: NodeRef, terms: seq<Expr>, depth: nat, memo: Memo)
    requires ClosedUnderAsking(env, keys) && Split(keys, outside, memo) && forall t :: t in terms ==> Inside(keys, obj, t)
    ensures AnyOf(env, obj, terms, depth, Over(outside, memo)) == AnswerOver(outside, AnyOf(env, obj, terms, depth, memo))
    ensures Split(keys, outside, AnyOf(env, obj, terms, depth, memo).memo)
    decreases Room(env, depth), Unentered(env, obj, memo), terms, 0
  {
    if terms == [] { return; }
    Framed(env, keys, outside, obj, terms[0], depth, memo);
    var a := Satisfies(env, obj, terms[0], depth, memo);
    if a.out.Missed? {
      AnyFramed(env, keys, outside, obj, terms[1..], depth, a.memo);
    }
  }

  lemma {:induction false} AllFramed(env: Env, keys: iset<Key>, outside: map<Key, Mark>, obj: NodeRef, terms: seq<Expr>, depth: nat, memo: Memo)
    requires ClosedUnderAsking(env, keys) && Split(keys, outside, memo) && forall t :: t in terms ==> Inside(keys, obj, t)
    ensures AllOf(env, obj, terms, depth, Over(outside, memo)) == AnswerOver(outside, AllOf(env, obj, terms, depth, memo))
    ensures Split(keys, outside, AllOf(env, obj, terms, depth, memo).memo)
    decreases Room(env, depth), Unentered(env, obj, memo), terms, 0
  {
    if terms == [] { return; }
    Framed(env, keys, outside, obj, terms[0], depth, memo);
    var a := Satisfies(env, obj, terms[0], depth, memo);
    if a.out.Matched? {
      AllFramed(env, keys, outside, obj, terms[1..], depth, a.memo);
    }
  }

  // ---- What a call leaves of the memo ----

  /** The additive questions of the set are marked as true negatives or not at all. */
  ghost predicate Clean(env: Env, actions: iset<string>, keys: iset<Key>, memo: Memo) {
    forall k :: k in memo.marks && k in AdditivePart(actions, keys) ==> memo.marks[k].Dead? && !Derivable(env, k.obj, k.term)
  }

  ghost function AdditivePart(actions: iset<string>, keys: iset<Key>): iset<Key> {
    iset k | k in keys && AdditiveExpr(actions, k.term)
  }

  /** Nothing is forgotten, and marks outside the set are as they were. */
  ghost predicate ChangesOnly(keys: iset<Key>, before: Memo, after: Memo) {
    && before.marks.Keys <= after.marks.Keys
    && forall k :: k in after.marks && k !in keys ==> k in before.marks && after.marks[k] == before.marks[k]
  }

  /** Old marks are as they were, new ones are true negatives. */
  ghost predicate OnlyRefutes(env: Env, before: Memo, after: Memo) {
    && before.marks.Keys <= after.marks.Keys
    && forall k :: k in after.marks ==>
         if k in before.marks then after.marks[k] == before.marks[k] else after.marks[k].Dead? && !Derivable(env, k.obj, k.term)
  }

  /** Whatever both sets ask is grounded, though other questions of either may lie on cycles. */
  ghost predicate Apart(env: Env, a: iset<Key>, b: iset<Key>) {
    forall k :: k in a && k in b ==> IsGrounded(env, k.obj, k.term)
  }

  lemma RefutingStaysClean(env: Env, actions: iset<string>, keys: iset<Key>, before: Memo, after: Memo)
    requires Clean(env, actions, keys, before) && OnlyRefutes(env, before, after)
    ensures Clean(env, actions, keys, after)
  {
  }

  /** What a call keeps is clean on questions it shares only where they are grounded. */
  lemma ApartStaysClean(env: Env, actions: iset<string>, keys: iset<Key>, others: iset<Key>, before: Memo, after: Memo)
    requires AdditiveOn(env.schema, actions)
    requires Clean(env, actions, keys, before) && ChangesOnly(others, before, after)
    requires Kept(env, before.marks, after.marks) && Apart(env, others, keys)
    ensures Clean(env, actions, keys, after)
  {
    forall k | k in after.marks && k in AdditivePart(actions, keys) ensures after.marks[k].Dead? && !Derivable(env, k.obj, k.term) {
      if k in others && after.marks[k].Dead? {
        var n: nat :| Grounded(env, n, k.obj, k.term);
        assert Refuted(env, k);
        GroundedDerivable(env, actions, n, k.obj, k.term);
      }
    }
  }

  /** The part of the memo that concerns the questions of the set, and the rest of it. */
  ghost function Part(keys: iset<Key>, memo: Memo): (part: Memo) {
    memo.(marks := map k | k in memo.marks && k in keys :: memo.marks[k])
  }

  ghost function Rest(keys: iset<Key>, memo: Memo): map<Key, Mark> {
    map k | k in memo.marks && k !in keys :: memo.marks[k]
  }

  lemma PartOverRest(keys: iset<Key>, memo: Memo)
    ensures Over(Rest(keys, memo), Part(keys, memo)) == memo && Split(keys, Rest(keys, memo), Part(keys, memo))
  {
    assert Rest(keys, memo) + Part(keys, memo).marks == memo.marks;
  }

  /** A call changes marks of its own questions only. */
  lemma ChangesItsOwn(env: Env, keys: iset<Key>, obj: NodeRef, expr: Expr, depth: nat, memo: Memo)
    requires ClosedUnderAsking(env, keys) && Inside(keys, obj, expr)
    ensures ChangesOnly(keys, memo, Satisfies(env, obj, expr, depth, memo).memo)
  {
    PartOverRest(keys, memo);
    Framed(env, keys, Rest(keys, memo), obj, expr, depth, Part(keys, memo));
  }

  // ---- Additive questions on grounded data ----

  lemma {:induction false} HoldsDerives(env: Env, n: nat, obj: NodeRef, expr: Expr)
    requires Holds(env, n, obj, expr)
    ensures Derives(env, n, obj, expr)
    decreases n, expr
  {
    if expr.RuleTerm? {
      HoldsDerives(env, n - 1, obj, env.schema.Rule(obj.typ, expr.action));
    } else if expr.Union? {
      var t :| t in expr.terms && Holds(env, n, obj, t);
      HoldsDerives(env, n, obj, t);
    } else if expr.Intersect? {
      forall t | t in expr.terms ensures Derives(env, n, obj, t) {
        HoldsDerives(env, n, obj, t);
      }
    } else if expr.Exclude? {
      HoldsDerives(env, n, obj, expr.base);
    } else if expr.RelationTerm? || expr.ArrowTerm? {
      var ed :| Live(env, obj, expr, ed) && GoalHolds(env, n - 1, GoalOf(env, expr, ed));
      var g := GoalOf(env, expr, ed);
      if g.Ask? {
        HoldsDerives(env, n - 1, g.node, g.term);
      }
      assert GoalDerives(env, n - 1, g);
    }
  }

  lemma {:induction false} DerivesHolds(env: Env, actions: iset<string>, n: nat, m: nat, obj: NodeRef, expr: Expr)
    requires AdditiveOn(env.schema, actions) && AdditiveExpr(actions, expr)
    requires Grounded(env, n, obj, expr) && Derives(env, m, obj, expr)
    ensures Holds(env, n, obj, expr)
    decreases n, expr
  {
    if expr.RuleTerm? {
      DerivesHolds(env, actions, n - 1, m - 1, obj, env.schema.Rule(obj.typ, expr.action));
    } else if expr.Union? {
      var t :| t in expr.terms && Derives(env, m, obj, t);
      DerivesHolds(env, actions, n, m, obj, t);
    } else if expr.RelationTerm? || expr.ArrowTerm? {
      var ed :| Live(env, obj, expr, ed) && GoalDerives(env, m - 1, GoalOf(env, expr, ed));
      var g := GoalOf(env, expr, ed);
      assert GoalGrounded(env, n - 1, g);
      if g.Ask? {
        DerivesHolds(env, actions, n - 1, m - 1, g.node, g.term);
      }
      assert GoalHolds(env, n - 1, g);
    }
  }

  /** For an additive question on grounded data the two meanings are one. */
  lemma GroundedDerivable(env: Env, actions: iset<string>, n: nat, obj: NodeRef, expr: Expr)
    requires AdditiveOn(env.schema, actions) && AdditiveExpr(actions, expr) && Grounded(env, n, obj, expr)
    ensures Holds(env, n, obj, expr) <==> Derivable(env, obj, expr)
  {
    if Derivable(env, obj, expr) {
      var m: nat :| Derives(env, m, obj, expr);
      DerivesHolds(env, actions, n, m, obj, expr);
    }
    if Holds(env, n, obj, expr) {
      HoldsDerives(env, n, obj, expr);
    }
  }

  // ---- One additive operand ----

  lemma {:induction false} AdditiveInside(actions: iset<string>, keys: iset<Key>, obj: NodeRef, expr: Expr)
    requires AdditiveExpr(actions, expr) && Inside(keys, obj, expr)
    ensures Inside(AdditivePart(actions, keys), obj, expr)
    decreases expr
  {
    if expr.Union? {
      forall t | t in expr.terms ensures Inside(AdditivePart(actions, keys), obj, t) {
        AdditiveInside(actions, keys, obj, t);
      }
    }
  }

  /** Additive questions ask additive questions only. */
  lemma AdditivePartIsClosed(env: Env, actions: iset<string>, keys: iset<Key>)
    requires AdditiveOn(env.schema, actions) && ClosedUnderAsking(env, keys)
    ensures ClosedUnderAsking(env, AdditivePart(actions, keys))
  {
    var own := AdditivePart(actions, keys);
    forall k | k in own ensures AsksInside(env, own, k) {
      assert AsksInside(env, keys, k);
      if k.term.RuleTerm? {
        if env.schema.HasRule(k.obj.typ, k.term.action) {
          AdditiveInside(actions, keys, k.obj, env.schema.Rule(k.obj.typ, k.term.action));
        }
      } else if Declared(env, k.term) {
        forall ed | ed in OutEdges(env, k.obj, k.term) && ed.Active(env.now) ensures EdgeInside(env, own, k.term, ed) {
          assert EdgeInside(env, keys, k.term, ed);
          var g := GoalOf(env, k.term, ed);
          if g.Ask? {
            AdditiveInside(actions, keys, g.node, g.term);
          }
        }
      }
    }
  }

  lemma MatchIsDerivable(env: Env, obj: NodeRef, expr: Expr, depth: nat, memo: Memo)
    requires Satisfies(env, obj, expr, depth, memo).out.Matched?
    ensures Derivable(env, obj, expr)
  {
    MatchIsEarned(env, obj, expr, depth, memo);
    assert Keeps(env, env, Satisfies(env, obj, expr, depth, memo).out.path);
  }

  /**
   * An additive operand is decided from any memo that is clean on its questions,
   * whatever else the memo holds. A miss adds nothing but true negatives.
   */
  lemma OperandIsExact(env: Env, actions: iset<string>, keys: iset<Key>, obj: NodeRef, expr: Expr, depth: nat, memo: Memo)
    requires AdditiveOn(env.schema, actions) && AdditiveExpr(actions, expr)
    requires ClosedUnderAsking(env, keys) && Inside(keys, obj, expr) && Clean(env, actions, keys, memo)
    ensures var r := Satisfies(env, obj, expr, depth, memo);
            && ChangesOnly(keys, memo, r.memo)
            && (r.out.Matched? ==> Derivable(env, obj, expr))
            && (r.out.Missed? ==> !Derivable(env, obj, expr) && OnlyRefutes(env, memo, r.memo))
  {
    var own := AdditivePart(actions, keys);
    var part, rest := Part(own, memo), Rest(own, memo);
    AdditiveInside(actions, keys, obj, expr);
    AdditivePartIsClosed(env, actions, keys);
    PartOverRest(own, memo);
    Framed(env, own, rest, obj, expr, depth, part);
    ChangesItsOwn(env, keys, obj, expr, depth, memo);
    var inner := Satisfies(env, obj, expr, depth, part);
    var r := Satisfies(env, obj, expr, depth, memo);
    assert r == AnswerOver(rest, inner);
    if r.out.Matched? {
      MatchIsDerivable(env, obj, expr, depth, memo);
    }
    if r.out.Missed? {
      MissIsUnderivable(env, actions, obj, expr, depth, part);
    }
  }

  // ---- Expressions whose operands share grounded questions only ----

  /** What a grounded question means, at any unfolding that grounds it. */
  ghost predicate GroundedMeaning(env: Env, obj: NodeRef, expr: Expr) {
    exists n: nat :: Grounded(env, n, obj, expr) && Holds(env, n, obj, expr)
  }

  /**
   * The set meaning of an expression: `+`, `&` and `-` as set operations, over the
   * compositional meaning of what is grounded and the least fixed point elsewhere.
   */
  ghost predicate Meant(env: Env, obj: NodeRef, expr: Expr) {
    if IsGrounded(env, obj, expr) then GroundedMeaning(env, obj, expr)
    else match expr
      case Union(terms) => exists t :: t in terms && Meant(env, obj, t)
      case Intersect(terms) => forall t :: t in terms ==> Meant(env, obj, t)
      case Exclude(base, subtract) => Meant(env, obj, base) && !Meant(env, obj, subtract)
      case _ => Derivable(env, obj, expr)
  }

  lemma GroundedMeant(env: Env, n: nat, obj: NodeRef, expr: Expr)
    requires Grounded(env, n, obj, expr)
    ensures Meant(env, obj, expr) <==> Holds(env, n, obj, expr)
  {
    if GroundedMeaning(env, obj, expr) {
      var m: nat :| Grounded(env, m, obj, expr) && Holds(env, m, obj, expr);
      if n <= m {
        GroundedStable(env, n, m, obj, expr);
      } else {
        GroundedStable(env, m, n, obj, expr);
      }
    }
  }

  /** The operators mean the set operations, on grounded data too. */
  lemma MeantUnfolds(env: Env, obj: NodeRef, expr: Expr)
    ensures expr.Union? ==> (Meant(env, obj, expr) <==> exists t :: t in expr.terms && Meant(env, obj, t))
    ensures expr.Intersect? ==> (Meant(env, obj, expr) <==> forall t :: t in expr.terms ==> Meant(env, obj, t))
    ensures expr.Exclude? ==> (Meant(env, obj, expr) <==> Meant(env, obj, expr.base) && !Meant(env, obj, expr.subtract))
  {
    if IsGrounded(env, obj, expr) {
      var n: nat :| Grounded(env, n, obj, expr);
      GroundedMeant(env, n, obj, expr);
      match expr {
        case Union(terms) => TermsMeant(env, n, obj, terms);
        case Intersect(terms) => TermsMeant(env, n, obj, terms);
        case Exclude(base, subtract) =>
          GroundedMeant(env, n, obj, base);
          GroundedMeant(env, n, obj, subtract);
        case _ =>
      }
    }
  }

  lemma TermsMeant(env: Env, n: nat, obj: NodeRef, terms: seq<Expr>)
    requires forall t :: t in terms ==> Grounded(env, n, obj, t)
    ensures forall t :: t in terms ==> (Meant(env, obj, t) <==> Holds(env, n, obj, t))
  {
    forall t | t in terms ensures Meant(env, obj, t) <==> Holds(env, n, obj, t) {
      GroundedMeant(env, n, obj, t);
    }
  }

  /** For an additive expression it is the least fixed point, cyclic data or not. */
  lemma {:induction false} AdditiveMeant(env: Env, actions: iset<string>, obj: NodeRef, expr: Expr)
    requires AdditiveOn(env.schema, actions) && AdditiveExpr(actions, expr)
    ensures Meant(env, obj, expr) <==> Derivable(env, obj, expr)
    decreases expr
  {
    if IsGrounded(env, obj, expr) {
      var n: nat :| Grounded(env, n, obj, expr);
      GroundedMeant(env, n, obj, expr);
      GroundedDerivable(env, actions, n, obj, expr);
    } else if expr.Union? {
      forall t | t in expr.terms ensures Meant(env, obj, t) <==> Derivable(env, obj, t) {
        AdditiveMeant(env, actions, obj, t);
      }
      DerivableIsFixedPoint(env, obj, expr);
    }
  }

  /** A relation means its least fixed point. */
  lemma RelationMeant(env: Env, obj: NodeRef, rel: string)
    ensures Meant(env, obj, RelationTerm(rel)) <==> Derivable(env, obj, RelationTerm(rel))
  {
    AdditiveMeant(env, iset{}, obj, RelationTerm(rel));
  }

  /**
   * The operands of every `&` and `-` of the expression, and a non-additive term of
   * a `+` and the terms after it, share grounded questions only. What is neither an
   * operator nor additive is grounded itself.
   */
  ghost predicate Separate(env: Env, actions: iset<string>, keys: iset<Key>, obj: NodeRef, expr: Expr)
    decreases expr, 1
  {
    if AdditiveExpr(actions, expr) || IsGrounded(env, obj, expr) then ClosedUnderAsking(env, keys) && Inside(keys, obj, expr)
    else match expr
      case Union(terms) => SeparateTerms(env, actions, keys, obj, terms, false)
      case Intersect(terms) => SeparateTerms(env, actions, keys, obj, terms, true)
      case Exclude(base, subtract) =>
        exists kb: iset<Key>, ks: iset<Key> ::
          kb <= keys && ks <= keys && Apart(env, kb, ks) && Separate(env, actions, kb, obj, base) && Separate(env, actions, ks, obj, subtract)
      case _ => false
  }

  ghost predicate SeparateTerms(env: Env, actions: iset<string>, keys: iset<Key>, obj: NodeRef, terms: seq<Expr>, all: bool)
    decreases terms, 0
  {
    terms == [] ||
    exists first: iset<Key>, rest: iset<Key> ::
      && first <= keys && rest <= keys
      && (Apart(env, first, rest) || (!all && AdditiveExpr(actions, terms[0])))
      && Separate(env, actions, first, obj, terms[0]) && SeparateTerms(env, actions, rest, obj, terms[1..], all)
  }

  /** A walk over such operands that does not fail computes the set meaning, on any data. */
  lemma {:induction false} SeparateIsExact(env: Env, actions: iset<string>, keys: iset<Key>, obj: NodeRef, expr: Expr, depth: nat, memo: Memo)
    requires AdditiveOn(env.schema, actions) && Tame(env, memo.marks)
    requires Separate(env, actions, keys, obj, expr) && Clean(env, actions, keys, memo)
    ensures var r := Satisfies(env, obj, expr, depth, memo);
            && ChangesOnly(keys, memo, r.memo)
            && (!r.out.Failed? ==> (r.out.Matched? <==> Meant(env, obj, expr)))
    decreases expr, 1
  {
    if AdditiveExpr(actions, expr) {
      OperandIsExact(env, actions, keys, obj, expr, depth, memo);
      AdditiveMeant(env, actions, obj, expr);
    } else if IsGrounded(env, obj, expr) {
      GroundedIsExact(env, keys, obj, expr, depth, memo);
    } else if depth <= env.maxDepth {
      MeantUnfolds(env, obj, expr);
      match expr {
        case Union(terms) => AnySeparateIsExact(env, actions, keys, obj, terms, depth, memo);
        case Intersect(terms) => AllSeparateIsExact(env, actions, keys, obj, terms, depth, memo);
        case Exclude(base, subtract) => ExcludeIsExact(env, actions, keys, obj, base, subtract, depth, memo);
      }
    }
  }

  lemma GroundedIsExact(env: Env, keys: iset<Key>, obj: NodeRef, expr: Expr, depth: nat, memo: Memo)
    requires IsGrounded(env, obj, expr) && Tame(env, memo.marks)
    requires ClosedUnderAsking(env, keys) && Inside(keys, obj, expr)
    ensures var r := Satisfies(env, obj, expr, depth, memo);
            && ChangesOnly(keys, memo, r.memo)
            && (!r.out.Failed? ==> (r.out.Matched? <==> Meant(env, obj, expr)))
  {
    var n: nat :| Grounded(env, n, obj, expr);
    TameIsSound(env, n, memo.marks);
    WalkIsRight(env, n, obj, expr, depth, memo);
    GroundedMeant(env, n, obj, expr);
    ChangesItsOwn(env, keys, obj, expr, depth, memo);
  }

  lemma {:induction false} ExcludeIsExact(env: Env, actions: iset<string>, keys: iset<Key>, obj: NodeRef, base: Expr, subtract: Expr, depth: nat, memo: Memo)
    requires AdditiveOn(env.schema, actions) && depth <= env.maxDepth && Tame(env, memo.marks)
    requires !IsGrounded(env, obj, Exclude(base, subtract))
    requires Separate(env, actions, keys, obj, Exclude(base, subtract)) && Clean(env, actions, keys, memo)
    ensures var r := Satisfies(env, obj, Exclude(base, subtract), depth, memo);
            && ChangesOnly(keys, memo, r.memo)
            && (!r.out.Failed? ==> (r.out.Matched? <==> Meant(env, obj, base) && !Meant(env, obj, subtract)))
    decreases Exclude(base, subtract), 0
  {
    var kb: iset<Key>, ks: iset<Key> :|
      kb <= keys && ks <= keys && Apart(env, kb, ks) && Separate(env, actions, kb, obj, base) && Separate(env, actions, ks, obj, subtract);
    SeparateIsExact(env, actions, kb, obj, base, depth, memo);
    var b := Satisfies(env, obj, base, depth, memo);
    if b.out.Matched? {
      TameStaysTame(env, obj, base, depth, memo);
      ApartStaysClean(env, actions, ks, kb, memo, b.memo);
      SeparateIsExact(env, actions, ks, obj, subtract, depth, b.memo);
    }
  }

  lemma {:induction false} AnySeparateIsExact(env: Env, actions: iset<string>, keys: iset<Key>, obj: NodeRef, terms: seq<Expr>, depth: nat, memo: Memo)
    requires AdditiveOn(env.schema, actions) && Tame(env, memo.marks)
    requires SeparateTerms(env, actions, keys, obj, terms, false) && Clean(env, actions, keys, memo)
    ensures var r := AnyOf(env, obj, terms, depth, memo);
            && ChangesOnly(keys, memo, r.memo)
            && (!r.out.Failed? ==> (r.out.Matched? <==> exists t :: t in terms && Meant(env, obj, t)))
    decreases terms, 0
  {
    if terms == [] { return; }
    var first: iset<Key>, rest: iset<Key> :|
      && first <= keys && rest <= keys
      && (Apart(env, first, rest) || AdditiveExpr(actions, terms[0]))
      && Separate(env, actions, first, obj, terms[0]) && SeparateTerms(env, actions, rest, obj, terms[1..], false);
    SeparateIsExact(env, actions, first, obj, terms[0], depth, memo);
    var a := Satisfies(env, obj, terms[0], depth, memo);
    assert forall t :: t in terms <==> t == terms[0] || t in terms[1..];
    if a.out.Missed? {
      TameStaysTame(env, obj, terms[0], depth, memo);
      if AdditiveExpr(actions, terms[0]) {
        OperandIsExact(env, actions, first, obj, terms[0], depth, memo);
        RefutingStaysClean(env, actions, rest, memo, a.memo);
      } else {
        ApartStaysClean(env, actions, rest, first, memo, a.memo);
      }
      AnySeparateIsExact(env, actions, rest, obj, terms[1..], depth, a.memo);
    }
  }

  lemma {:induction false} AllSeparateIsExact(env: Env, actions: iset<string>, keys: iset<Key>, obj: NodeRef, terms: seq<Expr>, depth: nat, memo: Memo)
    requires AdditiveOn(env.schema, actions) && Tame(env, memo.marks)
    requires SeparateTerms(env, actions, keys, obj, terms, true) && Clean(env, actions, keys, memo)
    ensures var r := AllOf(env, obj, terms, depth, memo);
            && ChangesOnly(keys, memo, r.memo)
            && (!r.out.Failed? ==> (r.out.Matched? <==> forall t :: t in terms ==> Meant(env, obj, t)))
    decreases terms, 0
  {
    if terms == [] { return; }
    var first: iset<Key>, rest: iset<Key> :|
      && first <= keys && rest <= keys && Apart(env, first, rest)
      && Separate(env, actions, first, obj, terms[0]) && SeparateTerms(env, actions, rest, obj, terms[1..], true);
    SeparateIsExact(env, actions, first, obj, terms[0], depth, memo);
    var a := Satisfies(env, obj, terms[0], depth, memo);
    assert forall t :: t in terms <==> t == terms[0] || t in terms[1..];
    if a.out.Matched? {
      TameStaysTame(env, obj, terms[0], depth, memo);
      ApartStaysClean(env, actions, rest, first, memo, a.memo);
      AllSeparateIsExact(env, actions, rest, obj, terms[1..], depth, a.memo);
    }
  }

  /**
   * A check that returns decides the set meaning of the rule on any data on which
   * the operands of `&` and `-` share grounded questions only: additive operands
   * over cyclic data with nothing in common, a rule that is grounded as a whole,
   * and everything in between.
   */
  lemma CheckDecidesSeparate(e: Evaluator, actions: iset<string>, keys: iset<Key>, req: Request, now: int)
    requires AdditiveOn(e.schema, actions)
    requires e.schema.HasRule(req.resource.typ, req.action) ==>
      Separate(EnvOf(e, req.subject, now), actions, keys, req.resource, e.schema.Rule(req.resource.typ, req.action))
    ensures var env := EnvOf(e, req.subject, now);
            var r := CheckSpec(e, req, now);
            r.Ok? ==> (r.value.allowed <==>
              e.schema.HasRule(req.resource.typ, req.action) && Meant(env, req.resource, e.schema.Rule(req.resource.typ, req.action)))
  {
    var env := EnvOf(e, req.subject, now);
    if e.schema.HasRule(req.resource.typ, req.action) {
      SeparateIsExact(env, actions, keys, req.resource, e.schema.Rule(req.resource.typ, req.action), 0, EMPTY_MEMO);
    }
  }

  // ---- How an expression is seen to be separate ----

  /** The set also holds every question the expression leads to. */
  ghost predicate SeparateWithin(env: Env, actions: iset<string>, keys: iset<Key>, obj: NodeRef, expr: Expr) {
    ClosedUnderAsking(env, keys) && Inside(keys, obj, expr) && Separate(env, actions, keys, obj, expr)
  }

  lemma {:induction false} InsideMore(keys: iset<Key>, more: iset<Key>, obj: NodeRef, expr: Expr)
    requires keys <= more && Inside(keys, obj, expr)
    ensures Inside(more, obj, expr)
    decreases expr
  {
    match expr {
      case Union(terms) => forall t | t in terms ensures Inside(more, obj, t) { InsideMore(keys, more, obj, t); }
      case Intersect(terms) => forall t | t in terms ensures Inside(more, obj, t) { InsideMore(keys, more, obj, t); }
      case Exclude(base, subtract) =>
        InsideMore(keys, more, obj, base);
        InsideMore(keys, more, obj, subtract);
      case _ =>
    }
  }

  lemma AsksInsideMore(env: Env, keys: iset<Key>, more: iset<Key>, k: Key)
    requires keys <= more && AsksInside(env, keys, k)
    ensures AsksInside(env, more, k)
  {
    if k.term.RuleTerm? {
      if env.schema.HasRule(k.obj.typ, k.term.action) {
        InsideMore(keys, more, k.obj, env.schema.Rule(k.obj.typ, k.term.action));
      }
    } else if Declared(env, k.term) {
      forall ed | ed in OutEdges(env, k.obj, k.term) && ed.Active(env.now) ensures EdgeInside(env, more, k.term, ed) {
        assert EdgeInside(env, keys, k.term, ed);
        var g := GoalOf(env, k.term, ed);
        if g.Ask? {
          InsideMore(keys, more, g.node, g.term);
        }
      }
    }
  }

  lemma BothClosed(env: Env, a: iset<Key>, b: iset<Key>)
    requires ClosedUnderAsking(env, a) && ClosedUnderAsking(env, b)
    ensures ClosedUnderAsking(env, a + b)
  {
    forall k | k in a + b ensures AsksInside(env, a + b, k) {
      AsksInsideMore(env, if k in a then a else b, a + b, k);
    }
  }

  lemma SeparateExclude(env: Env, actions: iset<string>, kb: iset<Key>, ks: iset<Key>, obj: NodeRef, base: Expr, subtract: Expr)
    requires Apart(env, kb, ks)
    requires SeparateWithin(env, actions, kb, obj, base) && SeparateWithin(env, actions, ks, obj, subtract)
    ensures SeparateWithin(env, actions, kb + ks, obj, Exclude(base, subtract))
  {
    BothClosed(env, kb, ks);
    InsideMore(kb, kb + ks, obj, base);
    InsideMore(ks, kb + ks, obj, subtract);
    assert kb <= kb + ks && ks <= kb + ks;
  }

  lemma SeparateUnion(env: Env, actions: iset<string>, ka: iset<Key>, kb: iset<Key>, obj: NodeRef, a: Expr, b: Expr)
    requires Apart(env, ka, kb)
    requires SeparateWithin(env, actions, ka, obj, a) && SeparateWithin(env, actions, kb, obj, b)
    ensures SeparateWithin(env, actions, ka + kb, obj, Union([a, b]))
  {
    BothClosed(env, ka, kb);
    InsideMore(ka, ka + kb, obj, a);
    InsideMore(kb, ka + kb, obj, b);
    PairIsSeparate(env, actions, ka, kb, obj, a, b, false);
  }

  lemma PairIsSeparate(env: Env, actions: iset<string>, ka: iset<Key>, kb: iset<Key>, obj: NodeRef, a: Expr, b: Expr, all: bool)
    requires Apart(env, ka, kb) && Separate(env, actions, ka, obj, a) && Separate(env, actions, kb, obj, b)
    ensures SeparateTerms(env, actions, ka + kb, obj, [a, b], all)
  {
    var terms := [a, b];
    assert terms[1..] == [b] && [b][1..] == [];
    assert iset{} <= kb && Apart(env, kb, iset{}) && SeparateTerms(env, actions, iset{}, obj, [], all);
    assert SeparateTerms(env, actions, kb, obj, [b], all);
    assert ka <= ka + kb && kb <= ka + kb;
  }

  ghost const EVERY_QUESTION: iset<Key> := iset k: Key | true

  /** A rule that is grounded as a whole is separate over all the questions there are. */
  lemma GroundedIsSeparate(env: Env, actions: iset<string>, obj: NodeRef, expr: Expr)
    requires IsGrounded(env, obj, expr) && AllResolved(env.schema) && Resolved(expr)
    ensures Separate(env, actions, EVERY_QUESTION, obj, expr)
  {
    LeavesInside(EVERY_QUESTION, obj, expr);
    forall k | k in EVERY_QUESTION ensures AsksInside(env, EVERY_QUESTION, k) {
      if k.term.RuleTerm? && env.schema.HasRule(k.obj.typ, k.term.action) {
        assert Resolved(env.schema.types[k.obj.typ].rules[k.term.action]);
        LeavesInside(EVERY_QUESTION, k.obj, env.schema.Rule(k.obj.typ, k.term.action));
      }
    }
  }
}
