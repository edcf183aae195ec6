/**
 * The exact meaning of the whole grammar, intersection and subtraction included,
 * on data with no cycle below the query, and the proof that the memoised walk
 * computes it (core/reach/walk.go:209-372).
 */
module Grounding {
  import opened Graph
  import opened Schemas
  import opened Walk
  import opened Semantics

  /**
   * Every chain of questions starting at (obj, expr) ends within n steps: the
   * dependency graph below the query is finite and has no cycle.
   */
  ghost predicate Grounded(env: Env, n: nat, obj: NodeRef, expr: Expr)
    decreases n, expr
  {
    match expr
    case RelationTerm(_) => n > 0 && forall ed :: Live(env, obj, expr, ed) ==> GoalGrounded(env, n - 1, GoalOf(env, expr, ed))
    case ArrowTerm(_, _) => n > 0 && forall ed :: Live(env, obj, expr, ed) ==> GoalGrounded(env, n - 1, GoalOf(env, expr, ed))
    case RuleTerm(a) => n > 0 && (env.schema.HasRule(obj.typ, a) ==> Grounded(env, n - 1, obj, env.schema.Rule(obj.typ, a)))
    case Union(terms) => forall t :: t in terms ==> Grounded(env, n, obj, t)
    case Intersect(terms) => forall t :: t in terms ==> Grounded(env, n, obj, t)
    case Exclude(base, subtract) => Grounded(env, n, obj, base) && Grounded(env, n, obj, subtract)
    case IdentTerm(_) => true
  }

  ghost predicate GoalGrounded(env: Env, n: nat, goal: Goal)
    decreases n, goal, 0
  {
    goal.Ask? ==> Grounded(env, n, goal.node, goal.term)
  }

  /** The compositional set semantics, unfolded n times: enough where Grounded(n) holds. */
  ghost predicate Holds(env: Env, n: nat, obj: NodeRef, expr: Expr)
    decreases n, expr
  {
    match expr
    case RelationTerm(_) => n > 0 && exists ed :: Live(env, obj, expr, ed) && GoalHolds(env, n - 1, GoalOf(env, expr, ed))
    case ArrowTerm(_, _) => n > 0 && exists ed :: Live(env, obj, expr, ed) && GoalHolds(env, n - 1, GoalOf(env, expr, ed))
    case RuleTerm(a) => n > 0 && env.schema.HasRule(obj.typ, a) && Holds(env, n - 1, obj, env.schema.Rule(obj.typ, a))
    case Union(terms) => exists t :: t in terms && Holds(env, n, obj, t)
    case Intersect(terms) => forall t :: t in terms ==> Holds(env, n, obj, t)
    case Exclude(base, subtract) => Holds(env, n, obj, base) && !Holds(env, n, obj, subtract)
    case IdentTerm(_) => false
  }

  ghost predicate GoalHolds(env: Env, n: nat, goal: Goal)
    decreases n, goal, 0
  {
    match goal
    case Here => true
    case Nothing => false
    case Ask(node, term) => Holds(env, n, node, term)
  }

  /** More unfolding changes neither groundedness nor the meaning. */
  lemma {:induction false} GroundedStable(env: Env, n: nat, m: nat, obj: NodeRef, expr: Expr)
    requires n <= m && Grounded(env, n, obj, expr)
    ensures Grounded(env, m, obj, expr)
    ensures Holds(env, n, obj, expr) <==> Holds(env, m, obj, expr)
    decreases n, expr
  {
    match expr
    case IdentTerm(_) =>
    case RuleTerm(a) =>
      if env.schema.HasRule(obj.typ, a) {
        GroundedStable(env, n - 1, m - 1, obj, env.schema.Rule(obj.typ, a));
      }
    case Union(terms) => TermsStable(env, n, m, obj, expr, terms);
    case Intersect(terms) => TermsStable(env, n, m, obj, expr, terms);
    case Exclude(base, subtract) =>
      GroundedStable(env, n, m, obj, base);
      GroundedStable(env, n, m, obj, subtract);
    case RelationTerm(_) => EdgesStable(env, n, m, obj, expr);
    case ArrowTerm(_, _) => EdgesStable(env, n, m, obj, expr);
  }

  lemma {:induction false} TermsStable(env: Env, n: nat, m: nat, obj: NodeRef, expr: Expr, terms: seq<Expr>)
    requires n <= m
    requires forall t :: t in terms ==> Grounded(env, n, obj, t) && t < expr
    ensures forall t :: t in terms ==> Grounded(env, m, obj, t) && (Holds(env, n, obj, t) <==> Holds(env, m, obj, t))
    decreases n, expr, 0
  {
    forall t | t in terms ensures Grounded(env, m, obj, t) && (Holds(env, n, obj, t) <==> Holds(env, m, obj, t)) {
      GroundedStable(env, n, m, obj, t);
    }
  }

  lemma {:induction false} EdgesStable(env: Env, n: nat, m: nat, obj: NodeRef, term: Expr)
    requires term.RelationTerm? || term.ArrowTerm?
    requires n <= m && Grounded(env, n, obj, term)
    ensures Grounded(env, m, obj, term)
    ensures Holds(env, n, obj, term) <==> Holds(env, m, obj, term)
    decreases n, term, 0
  {
    forall ed | Live(env, obj, term, ed)
      ensures GoalGrounded(env, m - 1, GoalOf(env, term, ed))
      ensures GoalHolds(env, n - 1, GoalOf(env, term, ed)) <==> GoalHolds(env, m - 1, GoalOf(env, term, ed))
    {
      var g := GoalOf(env, term, ed);
      assert GoalGrounded(env, n - 1, g);
      if g.Ask? {
        GroundedStable(env, n - 1, m - 1, g.node, g.term);
      }
    }
  }

  /** The smallest bound that grounds a term. */
  lemma {:induction false} LeastGround(env: Env, m: nat, obj: NodeRef, expr: Expr) returns (n: nat)
    requires Grounded(env, m, obj, expr)
    ensures n <= m && Grounded(env, n, obj, expr)
    ensures n > 0 ==> !Grounded(env, n - 1, obj, expr)
  {
    if m > 0 && Grounded(env, m - 1, obj, expr) {
      n := LeastGround(env, m - 1, obj, expr);
    } else {
      n := m;
    }
  }

  // ---- The memo on grounded data ----

  /** A dead mark is a true negative, however far the meaning is unfolded. */
  ghost predicate Refuted(env: Env, key: Key) {
    forall n: nat :: Grounded(env, n, key.obj, key.term) ==> !Holds(env, n, key.obj, key.term)
  }

  /**
   * Every dead term is refuted, and no open term is grounded within m steps: a
   * question grounded within m steps is therefore never one already in progress.
   */
  ghost predicate Sound(env: Env, m: nat, marks: map<Key, Mark>) {
    forall k :: k in marks ==>
      if marks[k].Dead? then Refuted(env, k) else !Grounded(env, m, k.obj, k.term)
  }

  lemma SoundShrinks(env: Env, n: nat, m: nat, marks: map<Key, Mark>)
    requires n <= m && Sound(env, m, marks)
    ensures Sound(env, n, marks)
  {
    forall k | k in marks && marks[k].Open? ensures !Grounded(env, n, k.obj, k.term) {
      if Grounded(env, n, k.obj, k.term) {
        GroundedStable(env, n, m, k.obj, k.term);
      }
    }
  }

  /** What a call that does not fail leaves behind: no new open term, and true negatives only. */
  ghost predicate Kept(env: Env, before: map<Key, Mark>, after: map<Key, Mark>) {
    forall k :: k in after ==>
      if after[k].Dead? then Refuted(env, k) else k in before && before[k].Open?
  }

  lemma RefutedAt(env: Env, n: nat, key: Key)
    requires Grounded(env, n, key.obj, key.term) && !Holds(env, n, key.obj, key.term)
    ensures Refuted(env, key)
  {
    forall m: nat | Grounded(env, m, key.obj, key.term) ensures !Holds(env, m, key.obj, key.term) {
      if n <= m {
        GroundedStable(env, n, m, key.obj, key.term);
      } else {
        GroundedStable(env, m, n, key.obj, key.term);
      }
    }
  }

  /** The answer agrees with the meaning. */
  ghost predicate Right(out: Outcome, meaning: bool) {
    !out.Failed? ==> (out.Matched? <==> meaning)
  }

  lemma {:induction false} WalkIsRight(env: Env, m: nat, obj: NodeRef, expr: Expr, depth: nat, memo: Memo)
    requires Grounded(env, m, obj, expr)
    requires Sound(env, m, memo.marks)
    ensures var r := Satisfies(env, obj, expr, depth, memo);
            Right(r.out, Holds(env, m, obj, expr)) && (!r.out.Failed? ==> Kept(env, memo.marks, r.memo.marks))
    decreases Room(env, depth), Unentered(env, obj, memo), expr, 1
  {
    var r := Satisfies(env, obj, expr, depth, memo);
    if depth > env.maxDepth { return; }
    match expr
    case IdentTerm(_) =>
    case Union(terms) => AnyIsRight(env, m, obj, terms, depth, memo);
    case Intersect(terms) => AllIsRight(env, m, obj, terms, depth, memo);
    case Exclude(base, subtract) =>
      WalkIsRight(env, m, obj, base, depth, memo);
      var b := Satisfies(env, obj, base, depth, memo);
      if b.out.Matched? {
        KeptSound(env, m, memo.marks, b.memo.marks);
        WalkIsRight(env, m, obj, subtract, depth, b.memo);
      }
    case RuleTerm(a) => RuleIsRight(env, m, obj, a, depth, memo);
    case RelationTerm(_) => TermIsRight(env, m, obj, expr, depth, memo);
    case ArrowTerm(_, _) => TermIsRight(env, m, obj, expr, depth, memo);
  }

  lemma KeptSound(env: Env, m: nat, before: map<Key, Mark>, after: map<Key, Mark>)
    requires Sound(env, m, before) && Kept(env, before, after)
    ensures Sound(env, m, after)
  {
  }

  /** A memoised term is right when its body is, asked from the opened memo. */
  lemma RememberIsRight(env: Env, n: nat, m: nat, key: Key, memo: Memo, body: Answer)
    requires n <= m && Grounded(env, n, key.obj, key.term)
    requires Sound(env, m, memo.marks) && key !in memo.marks
    requires Right(body.out, Holds(env, n, key.obj, key.term))
    requires !body.out.Failed? ==> Kept(env, Opened(memo, key).marks, body.memo.marks)
    ensures var r := Remember(key, memo, body);
            Right(r.out, Holds(env, m, key.obj, key.term)) && (!r.out.Failed? ==> Kept(env, memo.marks, r.memo.marks))
  {
    GroundedStable(env, n, m, key.obj, key.term);
    if body.out.Missed? {
      RefutedAt(env, n, key);
    }
  }

  lemma {:induction false} RuleIsRight(env: Env, m: nat, obj: NodeRef, a: string, depth: nat, memo: Memo)
    requires depth <= env.maxDepth
    requires Grounded(env, m, obj, RuleTerm(a))
    requires Sound(env, m, memo.marks)
    ensures var r := Satisfies(env, obj, RuleTerm(a), depth, memo);
            Right(r.out, Holds(env, m, obj, RuleTerm(a))) && (!r.out.Failed? ==> Kept(env, memo.marks, r.memo.marks))
    decreases Room(env, depth), Unentered(env, obj, memo), RuleTerm(a), 0
  {
    var key := Key(obj, RuleTerm(a));
    if key in memo.marks { return; }
    var entered := Opened(memo, key);
    var n := LeastGround(env, m, obj, RuleTerm(a));
    SoundShrinks(env, n - 1, m, memo.marks);
    var body := Answer(Missed, entered);
    if env.schema.HasRule(obj.typ, a) {
      assert a in Unentered(env, obj, memo);
      assert Unentered(env, obj, entered) < Unentered(env, obj, memo);
      WalkIsRight(env, n - 1, obj, env.schema.Rule(obj.typ, a), depth, entered);
      body := Satisfies(env, obj, env.schema.Rule(obj.typ, a), depth, entered);
    }
    RememberIsRight(env, n, m, key, memo, body);
  }

  lemma {:induction false} TermIsRight(env: Env, m: nat, obj: NodeRef, term: Expr, depth: nat, memo: Memo)
    requires term.RelationTerm? || term.ArrowTerm?
    requires depth <= env.maxDepth
    requires Grounded(env, m, obj, term)
    requires Sound(env, m, memo.marks)
    ensures var r := Satisfies(env, obj, term, depth, memo);
            Right(r.out, Holds(env, m, obj, term)) && (!r.out.Failed? ==> Kept(env, memo.marks, r.memo.marks))
    decreases 2 * (env.maxDepth - depth) + 1, 1
  {
    var key := Key(obj, term);
    if key in memo.marks { return; }
    var entered := Opened(memo, key);
    var n := LeastGround(env, m, obj, term);
    SoundShrinks(env, n - 1, m, memo.marks);
    if Declared(env, term) {
      FollowIsRight(env, n - 1, obj, term, OutEdges(env, obj, term), depth, entered);
      assert Holds(env, n, obj, term) <==> SomeEdgeHolds(env, n - 1, term, OutEdges(env, obj, term));
    }
    RememberIsRight(env, n, m, key, memo, FollowTerm(env, obj, term, depth, memo));
  }

  ghost predicate SomeEdgeHolds(env: Env, n: nat, term: Expr, edges: seq<Edge>)
    requires Declared(env, term)
  {
    exists ed :: ed in edges && ed.Active(env.now) && GoalHolds(env, n, GoalOf(env, term, ed))
  }

  lemma {:induction false} FollowIsRight(env: Env, n: nat, obj: NodeRef, term: Expr, edges: seq<Edge>, depth: nat, memo: Memo)
    requires Declared(env, term) && depth <= env.maxDepth
    requires forall ed :: ed in edges && ed.Active(env.now) ==> GoalGrounded(env, n, GoalOf(env, term, ed))
    requires Sound(env, n, memo.marks)
    ensures var r := Follow(env, term, edges, depth, memo);
            Right(r.out, SomeEdgeHolds(env, n, term, edges)) && (!r.out.Failed? ==> Kept(env, memo.marks, r.memo.marks))
    decreases 2 * (env.maxDepth - depth) + 1, 0, |edges|
  {
    if edges == [] { return; }
    var ed := edges[0];
    assert forall e :: e in edges <==> e == ed || e in edges[1..];
    var mid := memo;
    if ed.Active(env.now) {
      var g := GoalOf(env, term, ed);
      if g.Here? { return; }
      if g.Ask? {
        WalkIsRight(env, n, g.node, g.term, depth + 1, memo);
        var a := Satisfies(env, g.node, g.term, depth + 1, memo);
        if !a.out.Missed? { return; }
        mid := a.memo;
        KeptSound(env, n, memo.marks, mid.marks);
      }
    }
    FollowIsRight(env, n, obj, term, edges[1..], depth, mid);
  }

  lemma {:induction false} AnyIsRight(env: Env, m: nat, obj: NodeRef, terms: seq<Expr>, depth: nat, memo: Memo)
    requires forall t :: t in terms ==> Grounded(env, m, obj, t)
    requires Sound(env, m, memo.marks)
    ensures var r := AnyOf(env, obj, terms, depth, memo);
            Right(r.out, exists t :: t in terms && Holds(env, m, obj, t)) && (!r.out.Failed? ==> Kept(env, memo.marks, r.memo.marks))
    decreases Room(env, depth), Unentered(env, obj, memo), terms, 0
  {
    if terms == [] { return; }
    assert forall t :: t in terms <==> t == terms[0] || t in terms[1..];
    WalkIsRight(env, m, obj, terms[0], depth, memo);
    var a := Satisfies(env, obj, terms[0], depth, memo);
    if a.out.Missed? {
      KeptSound(env, m, memo.marks, a.memo.marks);
      AnyIsRight(env, m, obj, terms[1..], depth, a.memo);
    }
  }

  lemma {:induction false} AllIsRight(env: Env, m: nat, obj: NodeRef, terms: seq<Expr>, depth: nat, memo: Memo)
    requires forall t :: t in terms ==> Grounded(env, m, obj, t)
    requires Sound(env, m, memo.marks)
    ensures var r := AllOf(env, obj, terms, depth, memo);
            Right(r.out, forall t :: t in terms ==> Holds(env, m, obj, t)) && (!r.out.Failed? ==> Kept(env, memo.marks, r.memo.marks))
    decreases Room(env, depth), Unentered(env, obj, memo), terms, 0
  {
    if terms == [] { return; }
    assert forall t :: t in terms <==> t == terms[0] || t in terms[1..];
    WalkIsRight(env, m, obj, terms[0], depth, memo);
    var a := Satisfies(env, obj, terms[0], depth, memo);
    if a.out.Matched? {
      KeptSound(env, m, memo.marks, a.memo.marks);
      AllIsRight(env, m, obj, terms[1..], depth, a.memo);
    }
  }

  // ---- The memo on any data: grounded questions are never given up wrongly ----

  /** The question's own dependency graph ends, whatever the data elsewhere. */
  ghost predicate IsGrounded(env: Env, obj: NodeRef, expr: Expr) {
    exists n: nat :: Grounded(env, n, obj, expr)
  }

  /** Dead marks are true negatives where the data is grounded, and nothing grounded is in progress. */
  ghost predicate Tame(env: Env, marks: map<Key, Mark>) {
    forall k :: k in marks ==> if marks[k].Dead? then Refuted(env, k) else !IsGrounded(env, k.obj, k.term)
  }

  lemma TameIsSound(env: Env, m: nat, marks: map<Key, Mark>)
    requires Tame(env, marks)
    ensures Sound(env, m, marks)
  {
  }

  /** A grounded question from a tame memo. */
  lemma GroundedKeeps(env: Env, obj: NodeRef, expr: Expr, depth: nat, memo: Memo)
    requires IsGrounded(env, obj, expr) && Tame(env, memo.marks)
    ensures var r := Satisfies(env, obj, expr, depth, memo); !r.out.Failed? ==> Kept(env, memo.marks, r.memo.marks)
  {
    var n: nat :| Grounded(env, n, obj, expr);
    TameIsSound(env, n, memo.marks);
    WalkIsRight(env, n, obj, expr, depth, memo);
  }

  /** A question that is not grounded, from that of its body. */
  lemma RememberKeeps(env: Env, key: Key, memo: Memo, body: Answer)
    requires !IsGrounded(env, key.obj, key.term) && key !in memo.marks
    requires !body.out.Failed? ==> Kept(env, Opened(memo, key).marks, body.memo.marks)
    ensures var r := Remember(key, memo, body); !r.out.Failed? ==> Kept(env, memo.marks, r.memo.marks)
  {
  }

  /** Cyclic data or not, a call that does not fail leaves no open term and only true negatives on grounded questions. */
  lemma {:induction false} TameStaysTame(env: Env, obj: NodeRef, expr: Expr, depth: nat, memo: Memo)
    requires Tame(env, memo.marks)
    ensures var r := Satisfies(env, obj, expr, depth, memo); !r.out.Failed? ==> Kept(env, memo.marks, r.memo.marks)
    decreases Room(env, depth), Unentered(env, obj, memo), expr, 1
  {
    if depth > env.maxDepth { return; }
    match expr
    case IdentTerm(_) =>
    case Union(terms) => AnyStaysTame(env, obj, terms, depth, memo);
    case Intersect(terms) => AllStaysTame(env, obj, terms, depth, memo);
    case Exclude(base, subtract) =>
      TameStaysTame(env, obj, base, depth, memo);
      var b := Satisfies(env, obj, base, depth, memo);
      if b.out.Matched? {
        TameStaysTame(env, obj, subtract, depth, b.memo);
      }
    case RuleTerm(a) => RuleStaysTame(env, obj, a, depth, memo);
    case RelationTerm(_) => TermStaysTame(env, obj, expr, depth, memo);
    case ArrowTerm(_, _) => TermStaysTame(env, obj, expr, depth, memo);
  }

  lemma {:induction false} RuleStaysTame(env: Env, obj: NodeRef, a: string, depth: nat, memo: Memo)
    requires depth <= env.maxDepth && Tame(env, memo.marks)
    ensures var r := Satisfies(env, obj, RuleTerm(a), depth, memo); !r.out.Failed? ==> Kept(env, memo.marks, r.memo.marks)
    decreases Room(env, depth), Unentered(env, obj, memo), RuleTerm(a), 0
  {
    var key := Key(obj, RuleTerm(a));
    var entered := Opened(memo, key);
    if key in memo.marks { return; }
    if IsGrounded(env, obj, RuleTerm(a)) {
      GroundedKeeps(env, obj, RuleTerm(a), depth, memo);
      return;
    }
    if env.schema.HasRule(obj.typ, a) {
      assert a in Unentered(env, obj, memo);
      assert Unentered(env, obj, entered) < Unentered(env, obj, memo);
      TameStaysTame(env, obj, env.schema.Rule(obj.typ, a), depth, entered);
    }
    TermAnswer(env, obj, RuleTerm(a), depth, memo);
    RememberKeeps(env, key, memo, TermBody(env, obj, RuleTerm(a), depth, entered));
  }

  lemma {:induction false} TermStaysTame(env: Env, obj: NodeRef, term: Expr, depth: nat, memo: Memo)
    requires term.RelationTerm? || term.ArrowTerm?
    requires depth <= env.maxDepth && Tame(env, memo.marks)
    ensures var r := Satisfies(env, obj, term, depth, memo); !r.out.Failed? ==> Kept(env, memo.marks, r.memo.marks)
    decreases 2 * (env.maxDepth - depth) + 1, 1
  {
    var key := Key(obj, term);
    var entered := Opened(memo, key);
    if key in memo.marks { return; }
    if IsGrounded(env, obj, term) {
      GroundedKeeps(env, obj, term, depth, memo);
      return;
    }
    if Declared(env, term) {
      FollowStaysTame(env, term, OutEdges(env, obj, term), depth, entered);
    }
    TermAnswer(env, obj, term, depth, memo);
    RememberKeeps(env, key, memo, TermBody(env, obj, term, depth, entered));
  }

  lemma {:induction false} FollowStaysTame(env: Env, term: Expr, edges: seq<Edge>, depth: nat, memo: Memo)
    requires Declared(env, term) && depth <= env.maxDepth && Tame(env, memo.marks)
    ensures var r := Follow(env, term, edges, depth, memo); !r.out.Failed? ==> Kept(env, memo.marks, r.memo.marks)
    decreases 2 * (env.maxDepth - depth) + 1, 0, |edges|
  {
    if edges == [] { return; }
    var ed := edges[0];
    var mid := memo;
    if ed.Active(env.now) {
      var g := GoalOf(env, term, ed);
      if g.Here? { return; }
      if g.Ask? {
        TameStaysTame(env, g.node, g.term, depth + 1, memo);
        var a := Satisfies(env, g.node, g.term, depth + 1, memo);
        if !a.out.Missed? { return; }
        mid := a.memo;
      }
    }
    FollowStaysTame(env, term, edges[1..], depth, mid);
  }

  lemma {:induction false} AnyStaysTame(env: Env, obj: NodeRef, terms: seq<Expr>, depth: nat, memo: Memo)
    requires Tame(env, memo.marks)
    ensures var r := AnyOf(env, obj, terms, depth, memo); !r.out.Failed? ==> Kept(env, memo.marks, r.memo.marks)
    decreases Room(env, depth), Unentered(env, obj, memo), terms, 0
  {
    if terms == [] { return; }
    TameStaysTame(env, obj, terms[0], depth, memo);
    var a := Satisfies(env, obj, terms[0], depth, memo);
    if a.out.Missed? {
      AnyStaysTame(env, obj, terms[1..], depth, a.memo);
    }
  }

  lemma {:induction false} AllStaysTame(env: Env, obj: NodeRef, terms: seq<Expr>, depth: nat, memo: Memo)
    requires Tame(env, memo.marks)
    ensures var r := AllOf(env, obj, terms, depth, memo); !r.out.Failed? ==> Kept(env, memo.marks, r.memo.marks)
    decreases Room(env, depth), Unentered(env, obj, memo), terms, 0
  {
    if terms == [] { return; }
    TameStaysTame(env, obj, terms[0], depth, memo);
    var a := Satisfies(env, obj, terms[0], depth, memo);
    if a.out.Matched? {
      AllStaysTame(env, obj, terms[1..], depth, a.memo);
    }
  }

  // ---- When a run sets the excluded flag ----

  /**
   * Tried in order until the outcome is decided, the expression meets a subtraction
   * whose base and subtracted side both hold.
   */
  ghost predicate Removes(env: Env, n: nat, obj: NodeRef, expr: Expr)
    decreases 2 * n, expr, 0
  {
    match expr
    case RelationTerm(_) => n > 0 && Declared(env, expr) && EdgesRemove(env, n - 1, expr, OutEdges(env, obj, expr))
    case ArrowTerm(_, _) => n > 0 && Declared(env, expr) && EdgesRemove(env, n - 1, expr, OutEdges(env, obj, expr))
    case RuleTerm(a) => n > 0 && env.schema.HasRule(obj.typ, a) && Removes(env, n - 1, obj, env.schema.Rule(obj.typ, a))
    case Union(terms) => TermsRemove(env, n, obj, terms, false)
    case Intersect(terms) => TermsRemove(env, n, obj, terms, true)
    case Exclude(base, subtract) =>
      || Removes(env, n, obj, base)
      || (Holds(env, n, obj, base) && (Holds(env, n, obj, subtract) || Removes(env, n, obj, subtract)))
    case IdentTerm(_) => false
  }

  /** Some term removes, and the terms before it all hold or all fail: they leave the outcome open. */
  ghost predicate TermsRemove(env: Env, n: nat, obj: NodeRef, terms: seq<Expr>, all: bool)
    decreases 2 * n, terms, 0
  {
    terms != [] &&
    (Removes(env, n, obj, terms[0]) || ((Holds(env, n, obj, terms[0]) <==> all) && TermsRemove(env, n, obj, terms[1..], all)))
  }

  ghost predicate EdgesRemove(env: Env, n: nat, term: Expr, edges: seq<Edge>)
    requires Declared(env, term)
    decreases 2 * n + 1, |edges|
  {
    edges != [] &&
    if edges[0].Active(env.now) then
      var g := GoalOf(env, term, edges[0]);
      (g.Ask? && Removes(env, n, g.node, g.term)) || (!GoalHolds(env, n, g) && EdgesRemove(env, n, term, edges[1..]))
    else EdgesRemove(env, n, term, edges[1..])
  }

  lemma {:induction false} RemovesStable(env: Env, n: nat, m: nat, obj: NodeRef, expr: Expr)
    requires n <= m && Grounded(env, n, obj, expr)
    ensures Removes(env, n, obj, expr) <==> Removes(env, m, obj, expr)
    decreases 2 * n, expr, 0
  {
    match expr
    case IdentTerm(_) =>
    case RuleTerm(a) =>
      if env.schema.HasRule(obj.typ, a) {
        RemovesStable(env, n - 1, m - 1, obj, env.schema.Rule(obj.typ, a));
      }
    case Union(terms) => TermsRemoveStable(env, n, m, obj, terms, false);
    case Intersect(terms) => TermsRemoveStable(env, n, m, obj, terms, true);
    case Exclude(base, subtract) =>
      GroundedStable(env, n, m, obj, base);
      GroundedStable(env, n, m, obj, subtract);
      RemovesStable(env, n, m, obj, base);
      RemovesStable(env, n, m, obj, subtract);
    case RelationTerm(_) =>
      if Declared(env, expr) {
        EdgesRemoveStable(env, n - 1, m - 1, expr, OutEdges(env, obj, expr));
      }
    case ArrowTerm(_, _) =>
      if Declared(env, expr) {
        EdgesRemoveStable(env, n - 1, m - 1, expr, OutEdges(env, obj, expr));
      }
  }

  lemma {:induction false} TermsRemoveStable(env: Env, n: nat, m: nat, obj: NodeRef, terms: seq<Expr>, all: bool)
    requires n <= m && forall t :: t in terms ==> Grounded(env, n, obj, t)
    ensures TermsRemove(env, n, obj, terms, all) <==> TermsRemove(env, m, obj, terms, all)
    decreases 2 * n, terms, 0
  {
    if terms != [] {
      assert terms[0] in terms && forall t :: t in terms[1..] ==> t in terms;
      GroundedStable(env, n, m, obj, terms[0]);
      RemovesStable(env, n, m, obj, terms[0]);
      TermsRemoveStable(env, n, m, obj, terms[1..], all);
    }
  }

  lemma {:induction false} EdgesRemoveStable(env: Env, n: nat, m: nat, term: Expr, edges: seq<Edge>)
    requires n <= m && Declared(env, term)
    requires forall ed :: ed in edges && ed.Active(env.now) ==> GoalGrounded(env, n, GoalOf(env, term, ed))
    ensures EdgesRemove(env, n, term, edges) <==> EdgesRemove(env, m, term, edges)
    decreases 2 * n + 1, |edges|
  {
    if edges != [] {
      assert edges[0] in edges && forall ed :: ed in edges[1..] ==> ed in edges;
      EdgesRemoveStable(env, n, m, term, edges[1..]);
      if edges[0].Active(env.now) {
        var g := GoalOf(env, term, edges[0]);
        assert GoalGrounded(env, n, g);
        if g.Ask? {
          GroundedStable(env, n, m, g.node, g.term);
          RemovesStable(env, n, m, g.node, g.term);
        }
      }
    }
  }

  /** A dead term that meets such a subtraction has set the flag. */
  ghost predicate Flagged(env: Env, memo: Memo) {
    forall k :: k in memo.marks && memo.marks[k].Dead? && !memo.excluded ==> Harmless(env, k)
  }

  ghost predicate Harmless(env: Env, k: Key) {
    forall n: nat :: Grounded(env, n, k.obj, k.term) ==> !Removes(env, n, k.obj, k.term)
  }

  lemma HarmlessAt(env: Env, n: nat, k: Key)
    requires Grounded(env, n, k.obj, k.term) && !Removes(env, n, k.obj, k.term)
    ensures Harmless(env, k)
  {
    forall m: nat | Grounded(env, m, k.obj, k.term) ensures !Removes(env, m, k.obj, k.term) {
      if n <= m {
        RemovesStable(env, n, m, k.obj, k.term);
      } else {
        RemovesStable(env, m, n, k.obj, k.term);
      }
    }
  }

  /** The call sets the flag exactly when the question removes. */
  ghost predicate FlagsRight(env: Env, before: Memo, r: Answer, removes: bool) {
    !r.out.Failed? ==> (r.memo.excluded <==> before.excluded || removes) && Flagged(env, r.memo)
  }

  lemma RememberFlags(env: Env, n: nat, m: nat, key: Key, memo: Memo, body: Answer)
    requires n <= m && Grounded(env, n, key.obj, key.term) && key !in memo.marks
    requires FlagsRight(env, Opened(memo, key), body, Removes(env, n, key.obj, key.term))
    ensures FlagsRight(env, memo, Remember(key, memo, body), Removes(env, m, key.obj, key.term))
  {
    RemovesStable(env, n, m, key.obj, key.term);
    if body.out.Missed? && !body.memo.excluded {
      HarmlessAt(env, n, key);
    }
  }

  /**
   * On grounded data a run that does not fail sets the excluded flag exactly when
   * some subtraction, met before the outcome was decided, takes something away.
   */
  lemma {:induction false} FlagIsExact(env: Env, m: nat, obj: NodeRef, expr: Expr, depth: nat, memo: Memo)
    requires Grounded(env, m, obj, expr)
    requires Sound(env, m, memo.marks) && Flagged(env, memo)
    ensures FlagsRight(env, memo, Satisfies(env, obj, expr, depth, memo), Removes(env, m, obj, expr))
    decreases Room(env, depth), Unentered(env, obj, memo), expr, 1
  {
    if depth > env.maxDepth { return; }
    match expr
    case IdentTerm(_) =>
    case Union(terms) => AnyFlagIsExact(env, m, obj, terms, depth, memo);
    case Intersect(terms) => AllFlagIsExact(env, m, obj, terms, depth, memo);
    case Exclude(base, subtract) =>
      FlagIsExact(env, m, obj, base, depth, memo);
      WalkIsRight(env, m, obj, base, depth, memo);
      var b := Satisfies(env, obj, base, depth, memo);
      if b.out.Matched? {
        KeptSound(env, m, memo.marks, b.memo.marks);
        FlagIsExact(env, m, obj, subtract, depth, b.memo);
        WalkIsRight(env, m, obj, subtract, depth, b.memo);
      }
    case RuleTerm(a) => RuleFlagIsExact(env, m, obj, a, depth, memo);
    case RelationTerm(_) => TermFlagIsExact(env, m, obj, expr, depth, memo);
    case ArrowTerm(_, _) => TermFlagIsExact(env, m, obj, expr, depth, memo);
  }

  lemma {:induction false} RuleFlagIsExact(env: Env, m: nat, obj: NodeRef, a: string, depth: nat, memo: Memo)
    requires depth <= env.maxDepth
    requires Grounded(env, m, obj, RuleTerm(a)) && Sound(env, m, memo.marks) && Flagged(env, memo)
    ensures FlagsRight(env, memo, Satisfies(env, obj, RuleTerm(a), depth, memo), Removes(env, m, obj, RuleTerm(a)))
    decreases Room(env, depth), Unentered(env, obj, memo), RuleTerm(a), 0
  {
    var key := Key(obj, RuleTerm(a));
    TermAnswer(env, obj, RuleTerm(a), depth, memo);
    if key in memo.marks { return; }
    var entered := Opened(memo, key);
    var n := LeastGround(env, m, obj, RuleTerm(a));
    SoundShrinks(env, n - 1, m, memo.marks);
    if env.schema.HasRule(obj.typ, a) {
      assert a in Unentered(env, obj, memo);
      assert Unentered(env, obj, entered) < Unentered(env, obj, memo);
      FlagIsExact(env, n - 1, obj, env.schema.Rule(obj.typ, a), depth, entered);
    }
    RememberFlags(env, n, m, key, memo, TermBody(env, obj, RuleTerm(a), depth, entered));
  }

  lemma {:induction false} TermFlagIsExact(env: Env, m: nat, obj: NodeRef, term: Expr, depth: nat, memo: Memo)
    requires term.RelationTerm? || term.ArrowTerm?
    requires depth <= env.maxDepth
    requires Grounded(env, m, obj, term) && Sound(env, m, memo.marks) && Flagged(env, memo)
    ensures FlagsRight(env, memo, Satisfies(env, obj, term, depth, memo), Removes(env, m, obj, term))
    decreases 2 * (env.maxDepth - depth) + 1, 1
  {
    var key := Key(obj, term);
    TermAnswer(env, obj, term, depth, memo);
    if key in memo.marks { return; }
    var entered := Opened(memo, key);
    var n := LeastGround(env, m, obj, term);
    SoundShrinks(env, n - 1, m, memo.marks);
    if Declared(env, term) {
      FollowFlagIsExact(env, n - 1, term, OutEdges(env, obj, term), depth, entered);
    }
    RememberFlags(env, n, m, key, memo, TermBody(env, obj, term, depth, entered));
  }

  lemma {:induction false} FollowFlagIsExact(env: Env, n: nat, term: Expr, edges: seq<Edge>, depth: nat, memo: Memo)
    requires Declared(env, term) && depth <= env.maxDepth
    requires forall ed :: ed in edges && ed.Active(env.now) ==> GoalGrounded(env, n, GoalOf(env, term, ed))
    requires Sound(env, n, memo.marks) && Flagged(env, memo)
    ensures FlagsRight(env, memo, Follow(env, term, edges, depth, memo), EdgesRemove(env, n, term, edges))
    decreases 2 * (env.maxDepth - depth) + 1, 0, |edges|
  {
    if edges == [] { return; }
    var ed := edges[0];
    assert ed in edges && forall e :: e in edges[1..] ==> e in edges;
    var mid := memo;
    if ed.Active(env.now) {
      var g := GoalOf(env, term, ed);
      if g.Here? { return; }
      if g.Ask? {
        FlagIsExact(env, n, g.node, g.term, depth + 1, memo);
        WalkIsRight(env, n, g.node, g.term, depth + 1, memo);
        var a := Satisfies(env, g.node, g.term, depth + 1, memo);
        if !a.out.Missed? { return; }
        mid := a.memo;
        KeptSound(env, n, memo.marks, mid.marks);
      }
    }
    FollowFlagIsExact(env, n, term, edges[1..], depth, mid);
  }

  lemma {:induction false} AnyFlagIsExact(env: Env, m: nat, obj: NodeRef, terms: seq<Expr>, depth: nat, memo: Memo)
    requires forall t :: t in terms ==> Grounded(env, m, obj, t)
    requires Sound(env, m, memo.marks) && Flagged(env, memo)
    ensures FlagsRight(env, memo, AnyOf(env, obj, terms, depth, memo), TermsRemove(env, m, obj, terms, false))
    decreases Room(env, depth), Unentered(env, obj, memo), terms, 0
  {
    if terms == [] { return; }
    assert terms[0] in terms && forall t :: t in terms[1..] ==> t in terms;
    FlagIsExact(env, m, obj, terms[0], depth, memo);
    WalkIsRight(env, m, obj, terms[0], depth, memo);
    var a := Satisfies(env, obj, terms[0], depth, memo);
    if a.out.Missed? {
      KeptSound(env, m, memo.marks, a.memo.marks);
      AnyFlagIsExact(env, m, obj, terms[1..], depth, a.memo);
    }
  }

  lemma {:induction false} AllFlagIsExact(env: Env, m: nat, obj: NodeRef, terms: seq<Expr>, depth: nat, memo: Memo)
    requires forall t :: t in terms ==> Grounded(env, m, obj, t)
    requires Sound(env, m, memo.marks) && Flagged(env, memo)
    ensures FlagsRight(env, memo, AllOf(env, obj, terms, depth, memo), TermsRemove(env, m, obj, terms, true))
    decreases Room(env, depth), Unentered(env, obj, memo), terms, 0
  {
    if terms == [] { return; }
    assert terms[0] in terms && forall t :: t in terms[1..] ==> t in terms;
    FlagIsExact(env, m, obj, terms[0], depth, memo);
    WalkIsRight(env, m, obj, terms[0], depth, memo);
    var a := Satisfies(env, obj, terms[0], depth, memo);
    if a.out.Matched? {
      KeptSound(env, m, memo.marks, a.memo.marks);
      AllFlagIsExact(env, m, obj, terms[1..], depth, a.memo);
    }
  }
}
