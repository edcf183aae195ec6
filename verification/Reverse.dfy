/**
 * Breadth-first search visits nearest points first: why a depth cap cuts a search
 * off only where something really lies that far (core/reach/reverse.go:144-199,
 * 248-303).
 */
module Levels {
  /** A queued point and its depth. */
  datatype Queued<P> = Queued(point: P, depth: nat)

  /** The point is n steps from the start. */
  ghost predicate Steps<P(!new)>(start: P, next: (P, P) -> bool, n: nat, p: P) {
    if n == 0 then p == start else exists q :: Steps(start, next, n - 1, q) && next(q, p)
  }

  ghost predicate Nearest<P(!new)>(start: P, next: (P, P) -> bool, n: nat, p: P) {
    Steps(start, next, n, p) && forall m: nat :: Steps(start, next, m, p) ==> n <= m
  }

  /** Some point is n steps from the start and no fewer, and n + 1 is at least the bound. */
  ghost predicate Deep<P(!new)>(start: P, next: (P, P) -> bool, bound: nat) {
    exists n: nat, p :: Nearest(start, next, n, p) && n + 1 >= bound
  }

  /** The depth is that of the start, or one more than that of some point. */
  ghost predicate Follows<P(!new)>(start: P, next: (P, P) -> bool, depth: nat) {
    depth == 0 || exists n: nat, p :: Nearest(start, next, n, p) && depth == n + 1
  }

  ghost predicate Waiting<P>(queue: seq<Queued<P>>, p: P, n: nat) {
    exists i :: 0 <= i < |queue| && queue[i].point == p && queue[i].depth <= n
  }

  /** The queue runs over at most two neighbouring depths, none below that of a visited point. */
  ghost predicate Ascends<P(!new)>(level: map<P, nat>, queue: seq<Queued<P>>) {
    && (forall i, j :: 0 <= i < j < |queue| ==> queue[i].depth <= queue[j].depth)
    && (forall i :: 0 <= i < |queue| ==> queue[i].depth <= queue[0].depth + 1)
    && (forall s, i :: s in level && 0 <= i < |queue| ==> level[s] <= queue[i].depth)
  }

  /** Queued points are as far as their depth says, one step from a nearest one. */
  ghost predicate Sourced<P(!new)>(start: P, next: (P, P) -> bool, queue: seq<Queued<P>>) {
    forall i :: 0 <= i < |queue| ==>
      && Steps(start, next, queue[i].depth, queue[i].point)
      && Follows(start, next, queue[i].depth)
  }

  ghost predicate Reaches<P(!new)>(level: map<P, nat>, queue: seq<Queued<P>>, p: P, n: nat) {
    (p in level && level[p] <= n) || Waiting(queue, p, n)
  }

  /** Where every visited point leads is visited, or waits, no more than one level on. */
  ghost predicate Spreads<P(!new)>(start: P, next: (P, P) -> bool, level: map<P, nat>, queue: seq<Queued<P>>) {
    && Reaches(level, queue, start, 0)
    && forall s, t :: s in level && next(s, t) ==> Reaches(level, queue, t, level[s] + 1)
  }

  ghost predicate Levelled<P(!new)>(start: P, next: (P, P) -> bool, level: map<P, nat>, queue: seq<Queued<P>>) {
    Ascends(level, queue) && Sourced(start, next, queue) && Spreads(start, next, level, queue)
  }

  lemma LevelledStart<P(!new)>(start: P, next: (P, P) -> bool)
    ensures Levelled(start, next, map[], [Queued(start, 0)])
  {
    var queue := [Queued(start, 0)];
    assert queue[0].point == start;
    assert Waiting(queue, start, 0);
  }

  /** What lies nearer than everything queued is visited, at its distance or before. */
  lemma {:induction false} NearIsVisited<P(!new)>(start: P, next: (P, P) -> bool, level: map<P, nat>, queue: seq<Queued<P>>, n: nat, p: P)
    requires Spreads(start, next, level, queue) && Steps(start, next, n, p)
    requires forall i :: 0 <= i < |queue| ==> n < queue[i].depth
    ensures p in level && level[p] <= n
  {
    if n > 0 {
      var q :| Steps(start, next, n - 1, q) && next(q, p);
      NearIsVisited(start, next, level, queue, n - 1, q);
      assert Reaches(level, queue, p, level[q] + 1);
    }
  }

  /** A point first taken from the queue is at its nearest. */
  lemma HeadIsNearest<P(!new)>(start: P, next: (P, P) -> bool, level: map<P, nat>, queue: seq<Queued<P>>)
    requires Levelled(start, next, level, queue) && queue != [] && queue[0].point !in level
    ensures Nearest(start, next, queue[0].depth, queue[0].point)
  {
    forall m: nat | Steps(start, next, m, queue[0].point) ensures queue[0].depth <= m {
      if m < queue[0].depth {
        NearIsVisited(start, next, level, queue, m, queue[0].point);
      }
    }
  }

  /** The cap is only met where something lies that deep. */
  lemma HeadIsDeep<P(!new)>(start: P, next: (P, P) -> bool, level: map<P, nat>, queue: seq<Queued<P>>, bound: nat)
    requires Levelled(start, next, level, queue) && queue != [] && queue[0].depth >= bound
    ensures Deep(start, next, bound)
  {
    if queue[0].depth == 0 {
      assert Nearest(start, next, 0, start);
    } else {
      var n: nat, p :| Nearest(start, next, n, p) && queue[0].depth == n + 1;
    }
  }

  /** A point met again is dropped. */
  lemma LevelledSkip<P(!new)>(start: P, next: (P, P) -> bool, level: map<P, nat>, queue: seq<Queued<P>>)
    requires Levelled(start, next, level, queue) && queue != [] && queue[0].point in level
    ensures Levelled(start, next, level, queue[1..])
  {
    var rest := queue[1..];
    assert forall i :: 0 <= i < |rest| ==> rest[i] == queue[i + 1];
    forall p, n: nat | Reaches(level, queue, p, n) ensures Reaches(level, rest, p, n) {
      if !(p in level && level[p] <= n) {
        var i :| 0 <= i < |queue| && queue[i].point == p && queue[i].depth <= n;
        assert i > 0 && rest[i - 1] == queue[i];
      }
    }
  }

  /** A new point is visited, and where it leads is queued one level on. */
  lemma LevelledExpand<P(!new)>(start: P, next: (P, P) -> bool, level: map<P, nat>, queue: seq<Queued<P>>, added: seq<Queued<P>>)
    requires Levelled(start, next, level, queue) && queue != [] && queue[0].point !in level
    requires forall i :: 0 <= i < |added| ==> added[i].depth == queue[0].depth + 1 && next(queue[0].point, added[i].point)
    requires forall t :: next(queue[0].point, t) ==>
      t in level || t == queue[0].point || exists i :: 0 <= i < |queue[1..] + added| && (queue[1..] + added)[i].point == t
    ensures Levelled(start, next, level[queue[0].point := queue[0].depth], queue[1..] + added)
  {
    HeadIsNearest(start, next, level, queue);
    ExpandAscends(level, queue, added);
    ExpandSourced(start, next, queue, added);
    ExpandSpreads(start, next, level, queue, added);
  }

  /** What was visited or waiting still is. */
  lemma StillReached<P(!new)>(level: map<P, nat>, queue: seq<Queued<P>>, added: seq<Queued<P>>, p: P, n: nat)
    requires queue != [] && queue[0].point !in level && Reaches(level, queue, p, n)
    ensures Reaches(level[queue[0].point := queue[0].depth], queue[1..] + added, p, n)
  {
    if !(p in level && level[p] <= n) {
      var i :| 0 <= i < |queue| && queue[i].point == p && queue[i].depth <= n;
      if i > 0 {
        assert (queue[1..] + added)[i - 1] == queue[i];
      }
    }
  }

  lemma ExpandSpreads<P(!new)>(start: P, next: (P, P) -> bool, level: map<P, nat>, queue: seq<Queued<P>>, added: seq<Queued<P>>)
    requires Spreads(start, next, level, queue) && queue != [] && queue[0].point !in level
    requires forall s :: s in level ==> level[s] <= queue[0].depth
    requires forall i :: 0 <= i < |queue[1..] + added| ==> (queue[1..] + added)[i].depth <= queue[0].depth + 1
    requires forall t :: next(queue[0].point, t) ==>
      t in level || t == queue[0].point || exists i :: 0 <= i < |queue[1..] + added| && (queue[1..] + added)[i].point == t
    ensures Spreads(start, next, level[queue[0].point := queue[0].depth], queue[1..] + added)
  {
    var at, d := queue[0].point, queue[0].depth;
    var after, all := level[at := d], queue[1..] + added;
    StillReached(level, queue, added, start, 0);
    forall s, t | s in after && next(s, t) ensures Reaches(after, all, t, after[s] + 1) {
      if s != at {
        StillReached(level, queue, added, t, level[s] + 1);
      } else if t !in level && t != at {
        var i :| 0 <= i < |all| && all[i].point == t;
      }
    }
  }

  lemma ExpandAscends<P(!new)>(level: map<P, nat>, queue: seq<Queued<P>>, added: seq<Queued<P>>)
    requires Ascends(level, queue) && queue != []
    requires forall i :: 0 <= i < |added| ==> added[i].depth == queue[0].depth + 1
    ensures Ascends(level[queue[0].point := queue[0].depth], queue[1..] + added)
    ensures forall i :: 0 <= i < |queue[1..] + added| ==> (queue[1..] + added)[i].depth <= queue[0].depth + 1
    ensures forall s :: s in level ==> level[s] <= queue[0].depth
  {
  }

  lemma ExpandSourced<P(!new)>(start: P, next: (P, P) -> bool, queue: seq<Queued<P>>, added: seq<Queued<P>>)
    requires Sourced(start, next, queue) && queue != [] && Nearest(start, next, queue[0].depth, queue[0].point)
    requires forall i :: 0 <= i < |added| ==> added[i].depth == queue[0].depth + 1 && next(queue[0].point, added[i].point)
    ensures Sourced(start, next, queue[1..] + added)
  {
    var all := queue[1..] + added;
    forall i | 0 <= i < |all|
      ensures Steps(start, next, all[i].depth, all[i].point)
      ensures Follows(start, next, all[i].depth)
    {
      if i < |queue| - 1 {
        assert all[i] == queue[i + 1];
      } else {
        assert all[i] == added[i - (|queue| - 1)];
      }
    }
  }
}

/**
 * What the candidate walks of the reverse queries must not miss
 * (core/reach/reverse.go:19-44, 136-199, 245-303).
 */
module Candidacy {
  import opened Wrappers
  import opened Graph
  import opened Schemas
  import opened Walk
  import opened Semantics
  import opened Soundness
  import opened Levels
  import opened Checks

  /** What the search remembers of an item. */
  datatype Point = Point(node: NodeRef, relation: string)

  ghost predicate Allows(e: Evaluator, req: Request, now: int) {
    var r := CheckSpec(e, req, now);
    r.Ok? && r.value.allowed
  }

  // ---- Backwards from a subject ----

  /** The edge carries a search that stands at the point, and the search may go on from its object. */
  predicate Carries(rev: NodeRef -> seq<Edge>, at: Point, ed: Edge) {
    ed in rev(at.node) && ed.subject.relation == at.relation && !ed.obj.IsWildcard()
  }

  /** Crossing one edge backwards leads from the first point to the second. */
  ghost predicate LeadsBack(rev: NodeRef -> seq<Edge>, from: Point, at: Point) {
    exists ed :: Carries(rev, from, ed) && (at == Point(ed.obj, "") || at == Point(ed.obj, ed.relation))
  }

  ghost function BackStep(rev: NodeRef -> seq<Edge>): (Point, Point) -> bool {
    (from, at) => LeadsBack(rev, from, at)
  }

  ghost predicate BackIn(rev: NodeRef -> seq<Edge>, subject: NodeRef, n: nat, at: Point) {
    Steps(Point(subject, ""), BackStep(rev), n, at)
  }

  /** The points a search backwards along the edges arrives at. */
  ghost predicate BackReached(rev: NodeRef -> seq<Edge>, subject: NodeRef, at: Point) {
    exists n: nat :: BackIn(rev, subject, n, at)
  }

  /** A concrete node of the type with an edge toward something the subject stands behind. */
  ghost predicate ObjectCandidate(rev: NodeRef -> seq<Edge>, subject: NodeRef, typ: string, node: NodeRef) {
    node.typ == typ && exists at: Point, ed :: BackReached(rev, subject, at) && Carries(rev, at, ed) && ed.obj == node
  }

  /** Everything the edge leads to is queued or seen, and counted when it has the wanted type. */
  ghost predicate Covered(ed: Edge, typ: string, known: set<Point>, found: set<NodeRef>) {
    && Point(ed.obj, "") in known
    && Point(ed.obj, ed.relation) in known
    && (ed.obj.typ == typ ==> ed.obj in found)
  }

  ghost predicate AllCovered(rev: NodeRef -> seq<Edge>, typ: string, seen: set<Point>, known: set<Point>, found: set<NodeRef>) {
    forall at: Point, ed :: at in seen && Carries(rev, at, ed) ==> Covered(ed, typ, known, found)
  }

  /** Nothing is queued, seen or found without a reason. */
  ghost predicate Justified(rev: NodeRef -> seq<Edge>, subject: NodeRef, typ: string, known: set<Point>, found: set<NodeRef>) {
    && (forall at :: at in known ==> BackReached(rev, subject, at))
    && (forall node :: node in found ==> ObjectCandidate(rev, subject, typ, node))
  }

  lemma CarriedReached(rev: NodeRef -> seq<Edge>, subject: NodeRef, at: Point, ed: Edge)
    requires BackReached(rev, subject, at) && Carries(rev, at, ed)
    ensures BackReached(rev, subject, Point(ed.obj, "")) && BackReached(rev, subject, Point(ed.obj, ed.relation))
    ensures ObjectCandidate(rev, subject, ed.obj.typ, ed.obj)
  {
    var n: nat :| BackIn(rev, subject, n, at);
    assert BackStep(rev)(at, Point(ed.obj, "")) && BackStep(rev)(at, Point(ed.obj, ed.relation));
    assert BackIn(rev, subject, n + 1, Point(ed.obj, ""));
    assert BackIn(rev, subject, n + 1, Point(ed.obj, ed.relation));
  }

  /** A closed set of points around the start holds every point the search can reach. */
  lemma {:induction false} ClosureReaches(rev: NodeRef -> seq<Edge>, subject: NodeRef, typ: string, seen: set<Point>, found: set<NodeRef>, n: nat, at: Point)
    requires Point(subject, "") in seen && AllCovered(rev, typ, seen, seen, found)
    requires BackIn(rev, subject, n, at)
    ensures at in seen
  {
    if n > 0 {
      var prev: Point :| BackIn(rev, subject, n - 1, prev) && LeadsBack(rev, prev, at);
      var ed :| Carries(rev, prev, ed) && (at == Point(ed.obj, "") || at == Point(ed.obj, ed.relation));
      ClosureReaches(rev, subject, typ, seen, found, n - 1, prev);
      assert Covered(ed, typ, seen, found);
    }
  }

  // ---- Forwards from a resource ----

  /** The nodes named on the declared edges of a node and of its type's star. */
  ghost predicate NamesNode(e: Evaluator, node: NodeRef, named: NodeRef) {
    exists rel, ed :: rel in e.schema.relations && (ed in e.edges(node, rel) || ed in e.edges(Star(node.typ), rel)) && named == ed.subject.node
  }

  ghost function NameStep(e: Evaluator): (NodeRef, NodeRef) -> bool {
    (node, named) => NamesNode(e, node, named)
  }

  ghost predicate ForwardIn(e: Evaluator, resource: NodeRef, n: nat, node: NodeRef) {
    Steps(resource, NameStep(e), n, node)
  }

  ghost predicate ForwardReached(e: Evaluator, resource: NodeRef, node: NodeRef) {
    exists n: nat :: ForwardIn(e, resource, n, node)
  }

  ghost predicate SubjectCandidate(e: Evaluator, resource: NodeRef, named: NodeRef) {
    exists node :: ForwardReached(e, resource, node) && NamesNode(e, node, named)
  }

  lemma NamedReached(e: Evaluator, resource: NodeRef, node: NodeRef, named: NodeRef)
    requires ForwardReached(e, resource, node) && NamesNode(e, node, named)
    ensures ForwardReached(e, resource, named) && SubjectCandidate(e, resource, named)
  {
    var n: nat :| ForwardIn(e, resource, n, node);
    assert NameStep(e)(node, named);
    assert ForwardIn(e, resource, n + 1, named);
  }

  /** Everything named at a seen node is queued or seen, and found. */
  ghost predicate NamesCovered(e: Evaluator, seen: set<NodeRef>, known: set<NodeRef>, found: set<NodeRef>) {
    forall node, named :: node in seen && NamesNode(e, node, named) ==> named in known && named in found
  }

  ghost predicate NamesJustified(e: Evaluator, resource: NodeRef, known: set<NodeRef>, found: set<NodeRef>) {
    && (forall node :: node in known ==> ForwardReached(e, resource, node))
    && (forall node :: node in found ==> SubjectCandidate(e, resource, node))
  }

  lemma {:induction false} ForwardClosure(e: Evaluator, resource: NodeRef, seen: set<NodeRef>, found: set<NodeRef>, n: nat, node: NodeRef)
    requires resource in seen && NamesCovered(e, seen, seen, found)
    requires ForwardIn(e, resource, n, node)
    ensures node in seen
  {
    if n > 0 {
      var prev :| ForwardIn(e, resource, n - 1, prev) && NamesNode(e, prev, node);
      ForwardClosure(e, resource, seen, found, n - 1, prev);
    }
  }

  // ---- Nobody is missed ----

  /** No intersection of the expression is empty; the validator sees to it. */
  predicate Inhabited(expr: Expr) {
    match expr
    case Union(terms) => forall t :: t in terms ==> Inhabited(t)
    case Intersect(terms) => terms != [] && forall t :: t in terms ==> Inhabited(t)
    case Exclude(base, subtract) => Inhabited(base) && Inhabited(subtract)
    case _ => true
  }

  ghost predicate InhabitedSchema(schema: Schema) {
    forall typ, a :: schema.HasRule(typ, a) ==> Inhabited(schema.Rule(typ, a))
  }

  /** Some arrow of the expression crosses the relation. */
  predicate Crosses(expr: Expr, rel: string) {
    match expr
    case ArrowTerm(r, _) => r == rel
    case Union(terms) => exists t :: t in terms && Crosses(t, rel)
    case Intersect(terms) => exists t :: t in terms && Crosses(t, rel)
    case Exclude(base, subtract) => Crosses(base, rel) || Crosses(subtract, rel)
    case _ => false
  }

  /** A well-formed reverse index: it holds the edges of the forward view, by subject. */
  ghost predicate ReverseOf(e: Evaluator, rev: NodeRef -> seq<Edge>) {
    forall obj: NodeRef, rel: string, ed :: ed in e.edges(obj, rel) ==>
      ed.obj == obj && ed.relation == rel && ed in rev(ed.subject.node)
  }

  /** No edge touches a star node. */
  ghost predicate StarFree(e: Evaluator) {
    forall obj: NodeRef, rel: string, ed :: ed in e.edges(obj, rel) ==> !obj.IsWildcard() && !ed.subject.node.IsWildcard()
  }

  /** Edges crossed by an arrow of some rule point at plain nodes. */
  ghost predicate PlainArrows(e: Evaluator) {
    forall obj: NodeRef, rel: string, ed, typ: string, a: string ::
      ed in e.edges(obj, rel) && e.schema.HasRule(typ, a) && Crosses(e.schema.Rule(typ, a), rel) ==> !ed.subject.IsUserset()
  }

  /** The edges are such that the backward walk can follow every forward step. */
  ghost predicate Invertible(e: Evaluator, rev: NodeRef -> seq<Edge>) {
    ReverseOf(e, rev) && StarFree(e) && PlainArrows(e) && InhabitedSchema(e.schema)
  }

  /** Arrows of the expression are arrows of some rule. */
  ghost predicate CrossesLikeRules(schema: Schema, expr: Expr) {
    forall rel :: Crosses(expr, rel) ==> exists typ, a :: schema.HasRule(typ, a) && Crosses(schema.Rule(typ, a), rel)
  }

  /** Both forms of the node are on the frontier of the backward walk, and the node is a candidate. */
  ghost predicate BackFound(rev: NodeRef -> seq<Edge>, subject: NodeRef, node: NodeRef, expr: Expr) {
    && BackReached(rev, subject, Point(node, ""))
    && ObjectCandidate(rev, subject, node.typ, node)
    && (expr.RelationTerm? ==> BackReached(rev, subject, Point(node, expr.relation)))
  }

  /** Whatever has a derivation for the subject is found walking backwards from it. */
  lemma {:induction false} DerivedIsBackFound(e: Evaluator, rev: NodeRef -> seq<Edge>, subject: NodeRef, now: int, n: nat, node: NodeRef, expr: Expr)
    requires Invertible(e, rev)
    requires Inhabited(expr) && CrossesLikeRules(e.schema, expr)
    requires Derives(EnvOf(e, subject, now), n, node, expr)
    ensures BackFound(rev, subject, node, expr)
    decreases n, expr
  {
    var env := EnvOf(e, subject, now);
    match expr
    case IdentTerm(_) =>
    case RuleTerm(a) =>
      DerivedIsBackFound(e, rev, subject, now, n - 1, node, e.schema.Rule(node.typ, a));
    case Union(terms) =>
      var t :| t in terms && Derives(env, n, node, t);
      assert forall rel :: Crosses(t, rel) ==> Crosses(expr, rel);
      DerivedIsBackFound(e, rev, subject, now, n, node, t);
    case Intersect(terms) =>
      assert terms[0] in terms;
      assert forall rel :: Crosses(terms[0], rel) ==> Crosses(expr, rel);
      DerivedIsBackFound(e, rev, subject, now, n, node, terms[0]);
    case Exclude(base, _) =>
      assert forall rel :: Crosses(base, rel) ==> Crosses(expr, rel);
      DerivedIsBackFound(e, rev, subject, now, n, node, base);
    case RelationTerm(_) => EdgeIsBackFound(e, rev, subject, now, n, node, expr);
    case ArrowTerm(_, _) => EdgeIsBackFound(e, rev, subject, now, n, node, expr);
  }

  lemma {:induction false} EdgeIsBackFound(e: Evaluator, rev: NodeRef -> seq<Edge>, subject: NodeRef, now: int, n: nat, node: NodeRef, term: Expr)
    requires term.RelationTerm? || term.ArrowTerm?
    requires Invertible(e, rev) && CrossesLikeRules(e.schema, term)
    requires Derives(EnvOf(e, subject, now), n, node, term)
    ensures BackFound(rev, subject, node, term)
    decreases n, term, 0
  {
    var env := EnvOf(e, subject, now);
    var ed :| Live(env, node, term, ed) && GoalDerives(env, n - 1, GoalOf(env, term, ed));
    assert ed in e.edges(node, term.relation);
    var g := GoalOf(env, term, ed);
    var from := Point(ed.subject.node, ed.subject.relation);
    if term.ArrowTerm? {
      assert Crosses(term, term.relation);
      assert !ed.subject.IsUserset();
    }
    if g.Ask? {
      DerivedIsBackFound(e, rev, subject, now, n - 1, g.node, g.term);
    } else {
      assert BackIn(rev, subject, 0, Point(subject, ""));
    }
    assert BackReached(rev, subject, from);
    assert Carries(rev, from, ed);
    CarriedReached(rev, subject, from, ed);
  }

  /** Every object Check allows is a candidate of the backward walk. */
  lemma AllowedObjectIsCandidate(e: Evaluator, rev: NodeRef -> seq<Edge>, req: Request, now: int)
    requires Invertible(e, rev)
    requires Allows(e, req, now)
    ensures ObjectCandidate(rev, req.subject, req.resource.typ, req.resource)
  {
    var n := AllowedIsDerivable(e, req, now);
    var rule := e.schema.Rule(req.resource.typ, req.action);
    DerivedIsBackFound(e, rev, req.subject, now, n, req.resource, rule);
  }

  /** An allowed request has a derivation, subtraction read as its base. */
  lemma AllowedIsDerivable(e: Evaluator, req: Request, now: int) returns (n: nat)
    requires Allows(e, req, now)
    ensures e.schema.HasRule(req.resource.typ, req.action)
    ensures Derives(EnvOf(e, req.subject, now), n, req.resource, e.schema.Rule(req.resource.typ, req.action))
  {
    var env := EnvOf(e, req.subject, now);
    var rule := env.schema.Rule(req.resource.typ, req.action);
    MatchIsEarned(env, req.resource, rule, 0, EMPTY_MEMO);
    assert Keeps(env, env, AskRule(env, req.resource, req.action).out.path);
    n :| Derives(env, n, req.resource, rule);
  }

  /** Whatever is derivable for a concrete subject names it, or its type's star, on the way. */
  lemma {:induction false} DerivedIsNamed(e: Evaluator, subject: NodeRef, now: int, resource: NodeRef, n: nat, node: NodeRef, expr: Expr)
    requires InhabitedSchema(e.schema) && Inhabited(expr)
    requires ForwardReached(e, resource, node)
    requires Derives(EnvOf(e, subject, now), n, node, expr)
    ensures SubjectCandidate(e, resource, subject) || SubjectCandidate(e, resource, Star(subject.typ))
    decreases n, expr
  {
    var env := EnvOf(e, subject, now);
    match expr
    case IdentTerm(_) =>
    case RuleTerm(a) => DerivedIsNamed(e, subject, now, resource, n - 1, node, e.schema.Rule(node.typ, a));
    case Union(terms) =>
      var t :| t in terms && Derives(env, n, node, t);
      DerivedIsNamed(e, subject, now, resource, n, node, t);
    case Intersect(terms) =>
      assert terms[0] in terms;
      DerivedIsNamed(e, subject, now, resource, n, node, terms[0]);
    case Exclude(base, _) => DerivedIsNamed(e, subject, now, resource, n, node, base);
    case RelationTerm(_) => EdgeIsNamed(e, subject, now, resource, n, node, expr);
    case ArrowTerm(_, _) => EdgeIsNamed(e, subject, now, resource, n, node, expr);
  }

  lemma {:induction false} EdgeIsNamed(e: Evaluator, subject: NodeRef, now: int, resource: NodeRef, n: nat, node: NodeRef, term: Expr)
    requires term.RelationTerm? || term.ArrowTerm?
    requires InhabitedSchema(e.schema)
    requires ForwardReached(e, resource, node)
    requires Derives(EnvOf(e, subject, now), n, node, term)
    ensures SubjectCandidate(e, resource, subject) || SubjectCandidate(e, resource, Star(subject.typ))
    decreases n, term, 0
  {
    var env := EnvOf(e, subject, now);
    var ed :| Live(env, node, term, ed) && GoalDerives(env, n - 1, GoalOf(env, term, ed));
    assert ed in e.edges(node, term.relation) || ed in e.edges(Star(node.typ), term.relation);
    assert NamesNode(e, node, ed.subject.node);
    NamedReached(e, resource, node, ed.subject.node);
    var g := GoalOf(env, term, ed);
    if g.Ask? {
      DerivedIsNamed(e, subject, now, resource, n - 1, g.node, g.term);
    }
  }

  /** Every subject Check allows is named by the forward walk, or everyone of its type is. */
  lemma AllowedSubjectIsCandidate(e: Evaluator, req: Request, now: int)
    requires InhabitedSchema(e.schema)
    requires Allows(e, req, now)
    ensures SubjectCandidate(e, req.resource, req.subject) || SubjectCandidate(e, req.resource, Star(req.subject.typ))
  {
    var n := AllowedIsDerivable(e, req, now);
    assert ForwardIn(e, req.resource, 0, req.resource);
    DerivedIsNamed(e, req.subject, now, req.resource, n, req.resource, e.schema.Rule(req.resource.typ, req.action));
  }
}

/**
 * The reverse queries: candidates by breadth-first search, then one Check each
 * (core/reach/reverse.go).
 */
module Reverse {
  import opened Wrappers
  import opened Graph
  import opened Schemas
  import opened Sorting
  import opened Levels
  import opened Candidacy
  import opened Checks

  const DEFAULT_MAX_CANDIDATES := 1000

  /** A frontier item: a node, how it was reached (empty: as a plain node) and how far. */
  datatype Item = Item(node: NodeRef, relation: string, depth: nat)

  datatype Candidates = Candidates(found: set<NodeRef>, truncated: bool)

  datatype ObjectList = ObjectList(objects: seq<NodeRef>, all: bool, truncated: bool)

  datatype SubjectList = SubjectList(subjects: seq<NodeRef>, all: bool, truncated: bool)

  datatype ListError = ListInvalidSubject | ListInvalidResource | ListUnknownType | ListCheckFailed(error: CheckError)

  // ---- Backwards from a subject ----

  function Points(queue: seq<Item>): set<Point> {
    set item | item in queue :: Point(item.node, item.relation)
  }

  /** The queue as points at their depths. */
  function Marks(queue: seq<Item>): (marks: seq<Queued<Point>>)
    ensures |marks| == |queue|
    ensures forall i :: 0 <= i < |marks| ==> marks[i] == Queued(Point(queue[i].node, queue[i].relation), queue[i].depth)
  {
    seq(|queue|, i requires 0 <= i < |queue| => Queued(Point(queue[i].node, queue[i].relation), queue[i].depth))
  }

  /** As many candidates as the cap allows, or a point the depth bound keeps the search from expanding. */
  ghost predicate ObjectsOverflow(e: Evaluator, rev: NodeRef -> seq<Edge>, subject: NodeRef, typ: string) {
    || (exists found: set<NodeRef> :: |found| >= 1000 && forall node :: node in found ==> ObjectCandidate(rev, subject, typ, node))
    || Deep(Point(subject, ""), BackStep(rev), e.maxDepth)
  }

  /** Every object of the type one edge behind a point nearer than the depth bound is found. */
  ghost predicate NearObjects(e: Evaluator, rev: NodeRef -> seq<Edge>, subject: NodeRef, typ: string, found: set<NodeRef>) {
    forall n: nat, at: Point, ed ::
      n < e.maxDepth && BackIn(rev, subject, n, at) && Carries(rev, at, ed) && ed.obj.typ == typ ==> ed.obj in found
  }

  /**
   * What the search hands on: candidates only, at most a thousand; all of them unless
   * truncated; and when truncated, a thousand, or all the near ones.
   */
  ghost predicate GatheredObjects(e: Evaluator, rev: NodeRef -> seq<Edge>, subject: NodeRef, typ: string, found: set<NodeRef>, truncated: bool) {
    && |found| <= 1000
    && (forall node :: node in found ==> ObjectCandidate(rev, subject, typ, node))
    && (!truncated ==> |found| < 1000 && forall node :: ObjectCandidate(rev, subject, typ, node) ==> node in found)
    && (truncated && |found| < 1000 ==>
          NearObjects(e, rev, subject, typ, found) && Deep(Point(subject, ""), BackStep(rev), e.maxDepth))
  }

  /** The points a search over the stored edges can ever hold. */
  function Reachable(subject: NodeRef, store: set<Edge>): set<Point> {
    {Point(subject, "")} + (set ed | ed in store :: Point(ed.obj, "")) + (set ed | ed in store :: Point(ed.obj, ed.relation))
  }

  /** Where the search stands: nothing queued or found without a reason, and nothing missed unless it overflowed. */
  ghost predicate Searching(e: Evaluator, rev: NodeRef -> seq<Edge>, subject: NodeRef, typ: string, store: set<Edge>,
                            seen: set<Point>, level: map<Point, nat>, queue: seq<Item>, found: set<NodeRef>, truncated: bool)
  {
    && seen + Points(queue) <= Reachable(subject, store)
    && Justified(rev, subject, typ, seen + Points(queue), found)
    && |found| < 1000
    && if truncated then NearObjects(e, rev, subject, typ, found) && Deep(Point(subject, ""), BackStep(rev), e.maxDepth)
       else
         && Point(subject, "") in seen + Points(queue)
         && AllCovered(rev, typ, seen, seen + Points(queue), found)
         && level.Keys == seen && Levelled(Point(subject, ""), BackStep(rev), level, Marks(queue))
  }

  lemma SearchStarts(e: Evaluator, rev: NodeRef -> seq<Edge>, subject: NodeRef, typ: string, store: set<Edge>)
    ensures Searching(e, rev, subject, typ, store, {}, map[], [Item(subject, "", 0)], {}, false)
  {
    var queue := [Item(subject, "", 0)];
    assert BackIn(rev, subject, 0, Point(subject, ""));
    assert Points(queue) == {Point(subject, "")};
    LevelledStart(Point(subject, ""), BackStep(rev));
    assert Marks(queue) == [Queued(Point(subject, ""), 0)];
  }

  lemma HeadAndRest(queue: seq<Item>)
    requires queue != []
    ensures Points(queue) == {Point(queue[0].node, queue[0].relation)} + Points(queue[1..])
    ensures Marks(queue[1..]) == Marks(queue)[1..]
  {
  }

  /** An item at the depth bound is cut off. */
  lemma SearchCuts(e: Evaluator, rev: NodeRef -> seq<Edge>, subject: NodeRef, typ: string, store: set<Edge>,
                   seen: set<Point>, level: map<Point, nat>, queue: seq<Item>, found: set<NodeRef>, truncated: bool)
    requires Searching(e, rev, subject, typ, store, seen, level, queue, found, truncated)
    requires queue != [] && queue[0].depth >= e.maxDepth
    ensures Searching(e, rev, subject, typ, store, seen, level, queue[1..], found, true)
  {
    HeadAndRest(queue);
    if !truncated {
      HeadIsDeep(Point(subject, ""), BackStep(rev), level, Marks(queue), e.maxDepth);
      NearIsFound(e, rev, subject, typ, seen, seen + Points(queue), level, queue, found);
    }
  }

  /** What lies nearer than everything queued is visited, and what is visited is covered. */
  lemma NearIsFound(e: Evaluator, rev: NodeRef -> seq<Edge>, subject: NodeRef, typ: string, seen: set<Point>, known: set<Point>,
                    level: map<Point, nat>, queue: seq<Item>, found: set<NodeRef>)
    requires AllCovered(rev, typ, seen, known, found) && level.Keys == seen
    requires Levelled(Point(subject, ""), BackStep(rev), level, Marks(queue)) && queue != [] && queue[0].depth >= e.maxDepth
    ensures NearObjects(e, rev, subject, typ, found)
  {
    forall n: nat, at: Point, ed | n < e.maxDepth && BackIn(rev, subject, n, at) && Carries(rev, at, ed) && ed.obj.typ == typ
      ensures ed.obj in found
    {
      NearIsVisited(Point(subject, ""), BackStep(rev), level, Marks(queue), n, at);
      assert Covered(ed, typ, known, found);
    }
  }

  /** A point seen before is passed over. */
  lemma SearchSkips(e: Evaluator, rev: NodeRef -> seq<Edge>, subject: NodeRef, typ: string, store: set<Edge>,
                    seen: set<Point>, level: map<Point, nat>, queue: seq<Item>, found: set<NodeRef>, truncated: bool)
    requires Searching(e, rev, subject, typ, store, seen, level, queue, found, truncated)
    requires queue != [] && Point(queue[0].node, queue[0].relation) in seen
    ensures Searching(e, rev, subject, typ, store, seen, level, queue[1..], found, truncated)
  {
    HeadAndRest(queue);
    assert seen + Points(queue) == seen + Points(queue[1..]);
    if !truncated {
      LevelledSkip(Point(subject, ""), BackStep(rev), level, Marks(queue));
    }
  }

  /** What scanning the edges at a point adds: items one step on, for every edge that carries the search. */
  ghost predicate Scanned(rev: NodeRef -> seq<Edge>, typ: string, at: Point, depth: nat, edges: seq<Edge>, added: seq<Item>, found: set<NodeRef>) {
    && (forall i :: 0 <= i < |added| ==> added[i].depth == depth + 1 && LeadsBack(rev, at, Point(added[i].node, added[i].relation)))
    && (forall ed :: ed in edges && Carries(rev, at, ed) ==> Covered(ed, typ, Points(added), found))
  }

  lemma AddedReached(rev: NodeRef -> seq<Edge>, subject: NodeRef, at: Point, added: seq<Item>, store: set<Edge>)
    requires BackReached(rev, subject, at) && forall node: NodeRef, ed :: ed in rev(node) ==> ed in store
    requires forall i :: 0 <= i < |added| ==> LeadsBack(rev, at, Point(added[i].node, added[i].relation))
    ensures forall p :: p in Points(added) ==> BackReached(rev, subject, p) && p in Reachable(subject, store)
  {
    forall p | p in Points(added) ensures BackReached(rev, subject, p) && p in Reachable(subject, store) {
      var item :| item in added && p == Point(item.node, item.relation);
      var ed :| Carries(rev, at, ed) && (p == Point(ed.obj, "") || p == Point(ed.obj, ed.relation));
      CarriedReached(rev, subject, at, ed);
    }
  }

  lemma PointsJoin(a: seq<Item>, b: seq<Item>)
    ensures Points(a + b) == Points(a) + Points(b) && Marks(a + b) == Marks(a) + Marks(b)
  {
    forall p | p in Points(a) + Points(b) ensures p in Points(a + b) {
      var item :| (item in a || item in b) && p == Point(item.node, item.relation);
      assert item in a + b;
    }
  }

  lemma MarkedPoints(queue: seq<Item>, p: Point)
    requires p in Points(queue)
    ensures exists i :: 0 <= i < |Marks(queue)| && Marks(queue)[i].point == p
  {
    var item :| item in queue && p == Point(item.node, item.relation);
    var i :| 0 <= i < |queue| && queue[i] == item;
    assert Marks(queue)[i].point == p;
  }

  /** A scanned point is covered, and the points covered before still are. */
  lemma ExpandCovers(rev: NodeRef -> seq<Edge>, typ: string, seen: set<Point>, at: Point, depth: nat, rest: seq<Item>, added: seq<Item>, found: set<NodeRef>, more: set<NodeRef>)
    requires AllCovered(rev, typ, seen, seen + {at} + Points(rest), found) && found <= more
    requires Scanned(rev, typ, at, depth, rev(at.node), added, more)
    ensures AllCovered(rev, typ, seen + {at}, seen + {at} + Points(rest + added), more)
  {
    PointsJoin(rest, added);
  }

  lemma ExpandLevels(rev: NodeRef -> seq<Edge>, subject: NodeRef, typ: string, level: map<Point, nat>, queue: seq<Item>, at: Point, added: seq<Item>, found: set<NodeRef>)
    requires queue != [] && at == Point(queue[0].node, queue[0].relation) && at !in level
    requires Levelled(Point(subject, ""), BackStep(rev), level, Marks(queue))
    requires Scanned(rev, typ, at, queue[0].depth, rev(at.node), added, found)
    ensures Levelled(Point(subject, ""), BackStep(rev), level[at := queue[0].depth], Marks(queue[1..] + added))
  {
    HeadAndRest(queue);
    PointsJoin(queue[1..], added);
    forall p | LeadsBack(rev, at, p) ensures exists i :: 0 <= i < |Marks(queue[1..] + added)| && Marks(queue[1..] + added)[i].point == p {
      var ed :| Carries(rev, at, ed) && (p == Point(ed.obj, "") || p == Point(ed.obj, ed.relation));
      assert Covered(ed, typ, Points(added), found);
      MarkedPoints(queue[1..] + added, p);
    }
    LevelledExpand(Point(subject, ""), BackStep(rev), level, Marks(queue), Marks(added));
  }

  /** A new point is expanded. */
  lemma SearchExpands(e: Evaluator, rev: NodeRef -> seq<Edge>, subject: NodeRef, typ: string, store: set<Edge>,
                      seen: set<Point>, level: map<Point, nat>, queue: seq<Item>, found: set<NodeRef>, truncated: bool, at: Point, added: seq<Item>, more: set<NodeRef>)
    requires Searching(e, rev, subject, typ, store, seen, level, queue, found, truncated)
    requires queue != [] && at == Point(queue[0].node, queue[0].relation) && at !in seen
    requires forall node: NodeRef, ed :: ed in rev(node) ==> ed in store
    requires Scanned(rev, typ, at, queue[0].depth, rev(at.node), added, more) && found <= more
    requires |more| < 1000 && forall node :: node in more ==> ObjectCandidate(rev, subject, typ, node)
    ensures Searching(e, rev, subject, typ, store, seen + {at}, level[at := queue[0].depth], queue[1..] + added, more, truncated)
  {
    HeadAndRest(queue);
    PointsJoin(queue[1..], added);
    AddedReached(rev, subject, at, added, store);
    assert seen + Points(queue) == seen + {at} + Points(queue[1..]);
    if !truncated {
      ExpandCovers(rev, typ, seen, at, queue[0].depth, queue[1..], added, found, more);
      ExpandLevels(rev, subject, typ, level, queue, at, added, more);
    }
  }

  /** When nothing is queued and nothing was cut off, every candidate is found. */
  lemma SearchEnds(e: Evaluator, rev: NodeRef -> seq<Edge>, subject: NodeRef, typ: string, store: set<Edge>,
                   seen: set<Point>, level: map<Point, nat>, found: set<NodeRef>, node: NodeRef)
    requires Searching(e, rev, subject, typ, store, seen, level, [], found, false)
    requires ObjectCandidate(rev, subject, typ, node)
    ensures node in found
  {
    assert seen + Points([]) == seen;
    var at: Point, ed :| BackReached(rev, subject, at) && Carries(rev, at, ed) && ed.obj == node;
    var n: nat :| BackIn(rev, subject, n, at);
    ClosureReaches(rev, subject, typ, seen, found, n, at);
    assert Covered(ed, typ, seen, found);
  }

  /**
   * Every node of the wanted type a backward walk from the subject can arrive at.
   * The store is the finite set of edges the resolver ever returns.
   */
  method CandidateObjects(e: Evaluator, rev: NodeRef -> seq<Edge>, subject: NodeRef, typ: string, ghost store: set<Edge>) returns (c: Candidates)
    requires forall node: NodeRef, ed :: ed in rev(node) ==> ed in store
    ensures GatheredObjects(e, rev, subject, typ, c.found, c.truncated)
    ensures c.truncated ==> ObjectsOverflow(e, rev, subject, typ)
  {
    var seen: set<Point> := {};
    var found: set<NodeRef> := {};
    var queue := [Item(subject, "", 0)];
    var truncated := false;
    ghost var level: map<Point, nat> := map[];
    SearchStarts(e, rev, subject, typ, store);
    while queue != []
      invariant Searching(e, rev, subject, typ, store, seen, level, queue, found, truncated)
      decreases Reachable(subject, store) - seen, |queue|
    {
      var item := queue[0];
      var at := Point(item.node, item.relation);
      ghost var whole, before := queue, found;
      HeadAndRest(queue);
      queue := queue[1..];
      if item.depth >= e.maxDepth {
        SearchCuts(e, rev, subject, typ, store, seen, level, whole, found, truncated);
        truncated := true;
        continue;
      }
      if at in seen {
        SearchSkips(e, rev, subject, typ, store, seen, level, whole, found, truncated);
        continue;
      }
      var full;
      ghost var added;
      found, queue, full, added := Scan(rev, subject, typ, at, item.depth, found, queue);
      if full {
        return Candidates(found, true);
      }
      SearchExpands(e, rev, subject, typ, store, seen, level, whole, before, truncated, at, added, found);
      seen := seen + {at};
      level := level[at := item.depth];
    }
    forall node | !truncated && ObjectCandidate(rev, subject, typ, node) ensures node in found {
      SearchEnds(e, rev, subject, typ, store, seen, level, found, node);
    }
    c := Candidates(found, truncated);
  }

  /** One item's edges: count the objects of the wanted type and queue both forms of each object. */
  method Scan(rev: NodeRef -> seq<Edge>, ghost subject: NodeRef, typ: string, at: Point, depth: nat, found0: set<NodeRef>, queue0: seq<Item>)
    returns (found: set<NodeRef>, queue: seq<Item>, full: bool, ghost added: seq<Item>)
    requires BackReached(rev, subject, at)
    requires |found0| < 1000 && forall node :: node in found0 ==> ObjectCandidate(rev, subject, typ, node)
    ensures queue == queue0 + added && found0 <= found
    ensures forall node :: node in found ==> ObjectCandidate(rev, subject, typ, node)
    ensures if full then |found| == 1000 else |found| < 1000 && Scanned(rev, typ, at, depth, rev(at.node), added, found)
  {
    found, queue, added := found0, queue0, [];
    var edges := rev(at.node);
    for i := 0 to |edges|
      invariant queue == queue0 + added && found0 <= found && |found| < 1000
      invariant forall node :: node in found ==> ObjectCandidate(rev, subject, typ, node)
      invariant Scanned(rev, typ, at, depth, edges[..i], added, found)
    {
      var edge := edges[i];
      assert edges[..i + 1] == edges[..i] + [edge];
      if edge.subject.relation != at.relation {
        continue;
      }
      if edge.obj.typ == typ && !edge.obj.IsWildcard() {
        CarriedReached(rev, subject, at, edge);
        found := found + {edge.obj};
        if |found| >= DEFAULT_MAX_CANDIDATES {
          return found, queue, true, added;
        }
      }
      if edge.obj.IsWildcard() {
        continue;
      }
      var more := [Item(edge.obj, "", depth + 1), Item(edge.obj, edge.relation, depth + 1)];
      ScannedMore(rev, typ, at, depth, edges[..i], added, found, edge);
      added := added + more;
      queue := queue + more;
    }
    assert edges[..|edges|] == edges;
    full := false;
  }

  lemma ScannedMore(rev: NodeRef -> seq<Edge>, typ: string, at: Point, depth: nat, edges: seq<Edge>, added: seq<Item>, found: set<NodeRef>, edge: Edge)
    requires Scanned(rev, typ, at, depth, edges, added, found) && Carries(rev, at, edge) && (edge.obj.typ == typ ==> edge.obj in found)
    ensures Scanned(rev, typ, at, depth, edges + [edge], added + [Item(edge.obj, "", depth + 1), Item(edge.obj, edge.relation, depth + 1)], found)
  {
    var more := [Item(edge.obj, "", depth + 1), Item(edge.obj, edge.relation, depth + 1)];
    PointsJoin(added, more);
    assert more[0] in more && more[1] in more;
    assert LeadsBack(rev, at, Point(edge.obj, "")) && LeadsBack(rev, at, Point(edge.obj, edge.relation));
  }

  /** The check of this request returns that error. */
  ghost predicate FailsWith(e: Evaluator, req: Request, now: int, error: CheckError) {
    CheckSpec(e, req, now) == Err(error)
  }

  /** The objects of one type the subject may act on, each confirmed by Check. */
  method ListObjects(e: Evaluator, rev: NodeRef -> seq<Edge>, subject: NodeRef, action: string, typ: string, now: int, ghost store: set<Edge>)
    returns (r: Result<ObjectList, ListError>)
    requires forall node: NodeRef, ed :: ed in rev(node) ==> ed in store
    ensures r == Err(ListInvalidSubject) <==> !subject.Valid()
    ensures r == Err(ListUnknownType) <==> subject.Valid() && typ !in e.schema.types
    ensures r.Err? && subject.Valid() && typ in e.schema.types ==>
      r.error.ListCheckFailed? && exists node :: (node == Star(typ) || ObjectCandidate(rev, subject, typ, node)) && FailsWith(e, Request(subject, action, node), now, r.error.error)
    ensures subject.Valid() && typ in e.schema.types && CheckSpec(e, Request(subject, action, Star(typ)), now).Err? ==>
      r == Err(ListCheckFailed(CheckSpec(e, Request(subject, action, Star(typ)), now).error))
    ensures r.Ok? ==>
      && (r.value.all <==> Allows(e, Request(subject, action, Star(typ)), now))
      && Ascending(NodeLess, r.value.objects)
      && forall node :: node in r.value.objects ==> ObjectCandidate(rev, subject, typ, node) && Allows(e, Request(subject, action, node), now)
    ensures r.Ok? ==> exists found: set<NodeRef> ::
      && GatheredObjects(e, rev, subject, typ, found, r.value.truncated)
      && forall node :: node in r.value.objects <==> node in found && Allows(e, Request(subject, action, node), now)
    ensures r.Ok? && r.value.truncated ==> ObjectsOverflow(e, rev, subject, typ)
    ensures r.Ok? && !r.value.truncated && Invertible(e, rev) ==>
      forall node: NodeRef :: node.typ == typ && !node.IsWildcard() ==>
        (node in r.value.objects <==> Allows(e, Request(subject, action, node), now))
  {
    if !subject.Valid() {
      return Err(ListInvalidSubject);
    }
    if typ !in e.schema.types {
      return Err(ListUnknownType);
    }
    var star := Check(e, Request(subject, action, Star(typ)), now);
    if star.Err? {
      assert FailsWith(e, Request(subject, action, Star(typ)), now, star.error);
      return Err(ListCheckFailed(star.error));
    }
    var c := CandidateObjects(e, rev, subject, typ, store);
    var nodes := SortedNodes(c.found);
    var confirmed := Confirmed(e, subject, action, nodes, now);
    if confirmed.Err? {
      return Err(confirmed.error);
    }
    var objects := confirmed.value;
    assert forall node :: node in nodes <==> node in c.found;
    forall node: NodeRef | !c.truncated && Invertible(e, rev) && node.typ == typ && Allows(e, Request(subject, action, node), now)
      ensures node in objects
    {
      AllowedObjectIsCandidate(e, rev, Request(subject, action, node), now);
    }
    r := Ok(ObjectList(objects, star.value.allowed, c.truncated));
  }

  /** The nodes Check allows, in their order, or the first error. */
  method Confirmed(e: Evaluator, subject: NodeRef, action: string, nodes: seq<NodeRef>, now: int) returns (r: Result<seq<NodeRef>, ListError>)
    requires Ascending(NodeLess, nodes)
    ensures r.Ok? ==> Ascending(NodeLess, r.value)
    ensures r.Ok? ==> forall node :: node in r.value <==> node in nodes && Allows(e, Request(subject, action, node), now)
    ensures r.Err? ==> r.error.ListCheckFailed? && exists node :: node in nodes && FailsWith(e, Request(subject, action, node), now, r.error.error)
  {
    var objects: seq<NodeRef> := [];
    for i := 0 to |nodes|
      invariant Ascending(NodeLess, objects)
      invariant forall node :: node in objects <==> node in nodes[..i] && Allows(e, Request(subject, action, node), now)
    {
      assert nodes[..i + 1] == nodes[..i] + [nodes[i]];
      var d := Check(e, Request(subject, action, nodes[i]), now);
      if d.Err? {
        assert nodes[i] in nodes && FailsWith(e, Request(subject, action, nodes[i]), now, d.error);
        return Err(ListCheckFailed(d.error));
      }
      if d.value.allowed {
        ExtendAscending(nodes, i, objects);
        objects := objects + [nodes[i]];
      }
    }
    assert nodes[..|nodes|] == nodes;
    r := Ok(objects);
  }

  lemma ExtendAscending(nodes: seq<NodeRef>, i: nat, kept: seq<NodeRef>)
    requires i < |nodes| && Ascending(NodeLess, nodes) && Ascending(NodeLess, kept)
    requires forall node :: node in kept ==> node in nodes[..i]
    ensures Ascending(NodeLess, kept + [nodes[i]])
  {
    forall k | 0 <= k < |kept| ensures NodeLess(kept[k], nodes[i]) {
      assert kept[k] in nodes[..i];
      var j :| 0 <= j < i && nodes[j] == kept[k];
    }
  }

  /** nodesOf: the nodes of a set, sorted by type and id. */
  method SortedNodes(found: set<NodeRef>) returns (nodes: seq<NodeRef>)
    ensures Ascending(NodeLess, nodes)
    ensures forall node :: node in nodes <==> node in found
  {
    NodeLessIsTotal();
    nodes := SortSet(NodeLess, found);
    assert forall node :: node in nodes <==> node in Elements(nodes);
  }

  // ---- Forwards from a resource ----

  datatype Stop = Stop(node: NodeRef, depth: nat)

  function Nodes(queue: seq<Stop>): set<NodeRef> {
    set item | item in queue :: item.node
  }

  function NodeMarks(queue: seq<Stop>): (marks: seq<Queued<NodeRef>>)
    ensures |marks| == |queue|
    ensures forall i :: 0 <= i < |marks| ==> marks[i] == Queued(queue[i].node, queue[i].depth)
  {
    seq(|queue|, i requires 0 <= i < |queue| => Queued(queue[i].node, queue[i].depth))
  }

  /** The nodes a search from the resource over the stored edges can ever hold. */
  function Nameable(resource: NodeRef, store: set<Edge>): set<NodeRef> {
    {resource} + set ed | ed in store :: ed.subject.node
  }

  ghost predicate Stored(e: Evaluator, store: set<Edge>) {
    forall obj: NodeRef, rel: string, ed :: ed in e.edges(obj, rel) ==> ed in store
  }

  /** As many named nodes as the cap allows, or a node the depth bound keeps the search from expanding. */
  ghost predicate SubjectsOverflow(e: Evaluator, resource: NodeRef) {
    || (exists found: set<NodeRef> :: |found| >= 1000 && forall node :: node in found ==> SubjectCandidate(e, resource, node))
    || Deep(resource, NameStep(e), e.maxDepth)
  }

  /** Every node named at a node nearer than the depth bound is found. */
  ghost predicate NearSubjects(e: Evaluator, resource: NodeRef, found: set<NodeRef>) {
    forall n: nat, node, named :: n < e.maxDepth && ForwardIn(e, resource, n, node) && NamesNode(e, node, named) ==> named in found
  }

  /** What the search hands on, in the same terms. */
  ghost predicate GatheredSubjects(e: Evaluator, resource: NodeRef, found: set<NodeRef>, truncated: bool) {
    && |found| <= 1000
    && (forall node :: node in found ==> SubjectCandidate(e, resource, node))
    && (!truncated ==> |found| < 1000 && forall node :: SubjectCandidate(e, resource, node) ==> node in found)
    && (truncated && |found| < 1000 ==> NearSubjects(e, resource, found) && Deep(resource, NameStep(e), e.maxDepth))
  }

  ghost predicate Naming(e: Evaluator, resource: NodeRef, store: set<Edge>,
                         seen: set<NodeRef>, level: map<NodeRef, nat>, queue: seq<Stop>, found: set<NodeRef>, truncated: bool)
  {
    && seen + Nodes(queue) <= Nameable(resource, store)
    && NamesJustified(e, resource, seen + Nodes(queue), found)
    && |found| < 1000
    && if truncated then NearSubjects(e, resource, found) && Deep(resource, NameStep(e), e.maxDepth)
       else
         && resource in seen + Nodes(queue)
         && NamesCovered(e, seen, seen + Nodes(queue), found)
         && level.Keys == seen && Levelled(resource, NameStep(e), level, NodeMarks(queue))
  }

  lemma NamingStarts(e: Evaluator, resource: NodeRef, store: set<Edge>)
    ensures Naming(e, resource, store, {}, map[], [Stop(resource, 0)], {}, false)
  {
    var queue := [Stop(resource, 0)];
    assert ForwardIn(e, resource, 0, resource);
    assert Nodes(queue) == {resource};
    LevelledStart(resource, NameStep(e));
    assert NodeMarks(queue) == [Queued(resource, 0)];
  }

  lemma FirstAndRest(queue: seq<Stop>)
    requires queue != []
    ensures Nodes(queue) == {queue[0].node} + Nodes(queue[1..])
    ensures NodeMarks(queue[1..]) == NodeMarks(queue)[1..]
  {
  }

  lemma NamingCuts(e: Evaluator, resource: NodeRef, store: set<Edge>,
                   seen: set<NodeRef>, level: map<NodeRef, nat>, queue: seq<Stop>, found: set<NodeRef>, truncated: bool)
    requires Naming(e, resource, store, seen, level, queue, found, truncated)
    requires queue != [] && queue[0].depth >= e.maxDepth
    ensures Naming(e, resource, store, seen, level, queue[1..], found, true)
  {
    FirstAndRest(queue);
    if !truncated {
      HeadIsDeep(resource, NameStep(e), level, NodeMarks(queue), e.maxDepth);
      forall n: nat, node, named | n < e.maxDepth && ForwardIn(e, resource, n, node) && NamesNode(e, node, named) ensures named in found {
        NearIsVisited(resource, NameStep(e), level, NodeMarks(queue), n, node);
      }
    }
  }

  lemma NamingSkips(e: Evaluator, resource: NodeRef, store: set<Edge>,
                    seen: set<NodeRef>, level: map<NodeRef, nat>, queue: seq<Stop>, found: set<NodeRef>, truncated: bool)
    requires Naming(e, resource, store, seen, level, queue, found, truncated)
    requires queue != [] && queue[0].node in seen
    ensures Naming(e, resource, store, seen, level, queue[1..], found, truncated)
  {
    FirstAndRest(queue);
    assert seen + Nodes(queue) == seen + Nodes(queue[1..]);
    if !truncated {
      LevelledSkip(resource, NameStep(e), level, NodeMarks(queue));
    }
  }

  /** Items one step on from the node. */
  ghost predicate Fans(e: Evaluator, node: NodeRef, depth: nat, added: seq<Stop>) {
    forall i :: 0 <= i < |added| ==> added[i].depth == depth + 1 && NamesNode(e, node, added[i].node)
  }

  /** Every node named at this one is queued and found. */
  ghost predicate Listed(e: Evaluator, node: NodeRef, added: seq<Stop>, found: set<NodeRef>) {
    forall named :: NamesNode(e, node, named) ==> named in Nodes(added) && named in found
  }

  lemma NodesJoin(a: seq<Stop>, b: seq<Stop>)
    ensures Nodes(a + b) == Nodes(a) + Nodes(b) && NodeMarks(a + b) == NodeMarks(a) + NodeMarks(b)
  {
    forall p | p in Nodes(a) + Nodes(b) ensures p in Nodes(a + b) {
      var item :| (item in a || item in b) && p == item.node;
      assert item in a + b;
    }
  }

  lemma MarkedNodes(queue: seq<Stop>, p: NodeRef)
    requires p in Nodes(queue)
    ensures exists i :: 0 <= i < |NodeMarks(queue)| && NodeMarks(queue)[i].point == p
  {
    var item :| item in queue && p == item.node;
    var i :| 0 <= i < |queue| && queue[i] == item;
    assert NodeMarks(queue)[i].point == p;
  }

  lemma FannedReached(e: Evaluator, resource: NodeRef, node: NodeRef, depth: nat, added: seq<Stop>, store: set<Edge>)
    requires ForwardReached(e, resource, node) && Stored(e, store) && Fans(e, node, depth, added)
    ensures forall p :: p in Nodes(added) ==> ForwardReached(e, resource, p) && p in Nameable(resource, store)
  {
    forall p | p in Nodes(added) ensures ForwardReached(e, resource, p) && p in Nameable(resource, store) {
      var item :| item in added && p == item.node;
      NamedReached(e, resource, node, p);
      var rel, ed :| rel in e.schema.relations && (ed in e.edges(node, rel) || ed in e.edges(Star(node.typ), rel)) && p == ed.subject.node;
      assert ed in store;
    }
  }

  lemma ListedLevels(e: Evaluator, resource: NodeRef, level: map<NodeRef, nat>, queue: seq<Stop>, added: seq<Stop>, found: set<NodeRef>)
    requires queue != [] && queue[0].node !in level
    requires Levelled(resource, NameStep(e), level, NodeMarks(queue))
    requires Fans(e, queue[0].node, queue[0].depth, added) && Listed(e, queue[0].node, added, found)
    ensures Levelled(resource, NameStep(e), level[queue[0].node := queue[0].depth], NodeMarks(queue[1..] + added))
  {
    FirstAndRest(queue);
    NodesJoin(queue[1..], added);
    forall p | NamesNode(e, queue[0].node, p) ensures exists i :: 0 <= i < |NodeMarks(queue[1..] + added)| && NodeMarks(queue[1..] + added)[i].point == p {
      MarkedNodes(queue[1..] + added, p);
    }
    LevelledExpand(resource, NameStep(e), level, NodeMarks(queue), NodeMarks(added));
  }

  lemma NamingExpands(e: Evaluator, resource: NodeRef, store: set<Edge>,
                      seen: set<NodeRef>, level: map<NodeRef, nat>, queue: seq<Stop>, found: set<NodeRef>, truncated: bool, added: seq<Stop>, more: set<NodeRef>)
    requires Naming(e, resource, store, seen, level, queue, found, truncated)
    requires queue != [] && queue[0].node !in seen && Stored(e, store)
    requires Fans(e, queue[0].node, queue[0].depth, added) && Listed(e, queue[0].node, added, more) && found <= more
    requires |more| < 1000 && forall node :: node in more ==> SubjectCandidate(e, resource, node)
    ensures Naming(e, resource, store, seen + {queue[0].node}, level[queue[0].node := queue[0].depth], queue[1..] + added, more, truncated)
  {
    var node, known := queue[0].node, seen + Nodes(queue);
    FirstAndRest(queue);
    NodesJoin(queue[1..], added);
    FannedReached(e, resource, node, queue[0].depth, added, store);
    assert seen + {node} + Nodes(queue[1..] + added) == known + Nodes(added);
    if !truncated {
      ListedCovers(e, seen, node, known, found, added, more);
      ListedLevels(e, resource, level, queue, added, more);
    }
  }

  lemma ListedCovers(e: Evaluator, seen: set<NodeRef>, node: NodeRef, known: set<NodeRef>, found: set<NodeRef>, added: seq<Stop>, more: set<NodeRef>)
    requires NamesCovered(e, seen, known, found) && Listed(e, node, added, more) && found <= more
    ensures NamesCovered(e, seen + {node}, known + Nodes(added), more)
  {
  }

  lemma NamingEnds(e: Evaluator, resource: NodeRef, store: set<Edge>, seen: set<NodeRef>, level: map<NodeRef, nat>, found: set<NodeRef>, named: NodeRef)
    requires Naming(e, resource, store, seen, level, [], found, false)
    requires SubjectCandidate(e, resource, named)
    ensures named in found
  {
    assert seen + Nodes([]) == seen;
    var node :| ForwardReached(e, resource, node) && NamesNode(e, node, named);
    var n: nat :| ForwardIn(e, resource, n, node);
    ForwardClosure(e, resource, seen, found, n, node);
  }

  /** Every node named on an edge reachable from the resource, star nodes included. */
  method CandidateSubjects(e: Evaluator, resource: NodeRef, ghost store: set<Edge>) returns (c: Candidates)
    requires Stored(e, store)
    ensures GatheredSubjects(e, resource, c.found, c.truncated)
    ensures c.truncated ==> SubjectsOverflow(e, resource)
  {
    var relations := SortedRelations(e.schema);
    var seen: set<NodeRef> := {};
    var found: set<NodeRef> := {};
    var queue := [Stop(resource, 0)];
    var truncated := false;
    ghost var level: map<NodeRef, nat> := map[];
    NamingStarts(e, resource, store);
    while queue != []
      invariant Naming(e, resource, store, seen, level, queue, found, truncated)
      decreases Nameable(resource, store) - seen, |queue|
    {
      var item := queue[0];
      ghost var whole, before := queue, found;
      FirstAndRest(queue);
      queue := queue[1..];
      if item.depth >= e.maxDepth {
        NamingCuts(e, resource, store, seen, level, whole, found, truncated);
        truncated := true;
        continue;
      }
      if item.node in seen {
        NamingSkips(e, resource, store, seen, level, whole, found, truncated);
        continue;
      }
      var full;
      ghost var added;
      found, queue, full, added := ScanNamed(e, resource, relations, item, found, queue);
      if full {
        return Candidates(found, true);
      }
      NamingExpands(e, resource, store, seen, level, whole, before, truncated, added, found);
      seen := seen + {item.node};
      level := level[item.node := item.depth];
    }
    forall node | !truncated && SubjectCandidate(e, resource, node) ensures node in found {
      NamingEnds(e, resource, store, seen, level, found, node);
    }
    c := Candidates(found, truncated);
  }

  method SortedRelations(schema: Schema) returns (relations: seq<string>)
    ensures forall rel :: rel in relations <==> rel in schema.relations
  {
    LessIsTotal();
    relations := SortSet(Less, schema.relations.Keys);
    assert forall rel :: rel in relations <==> rel in Elements(relations);
  }

  /** The edges of an object under a relation name nodes that are all queued and found. */
  ghost predicate EdgesListed(edges: seq<Edge>, added: seq<Stop>, found: set<NodeRef>) {
    forall ed :: ed in edges ==> ed.subject.node in Nodes(added) && ed.subject.node in found
  }

  /** The same for some relations of some objects. */
  ghost predicate RelationsListed(e: Evaluator, objects: seq<NodeRef>, relations: seq<string>, added: seq<Stop>, found: set<NodeRef>) {
    forall obj, rel :: obj in objects && rel in relations ==> EdgesListed(e.edges(obj, rel), added, found)
  }

  lemma FansJoin(e: Evaluator, node: NodeRef, depth: nat, queue: seq<Stop>, a: seq<Stop>, b: seq<Stop>)
    requires Fans(e, node, depth, a) && Fans(e, node, depth, b)
    ensures Fans(e, node, depth, a + b) && queue + a + b == queue + (a + b)
  {
    assert queue + a + b == queue + (a + b);
  }

  /** Lists that grow, and one more relation of one object. */
  lemma RelationsNext(e: Evaluator, obj: NodeRef, relations: seq<string>, k: nat, added: seq<Stop>, before: set<NodeRef>, some: seq<Stop>, found: set<NodeRef>)
    requires k < |relations| && before <= found
    requires RelationsListed(e, [obj], relations[..k], added, before) && EdgesListed(e.edges(obj, relations[k]), some, found)
    ensures RelationsListed(e, [obj], relations[..k + 1], added + some, found)
  {
    NodesJoin(added, some);
    assert relations[..k + 1] == relations[..k] + [relations[k]];
    forall o, rel | o in [obj] && rel in relations[..k + 1] ensures EdgesListed(e.edges(o, rel), added + some, found) {
      if rel in relations[..k] {
        assert EdgesListed(e.edges(o, rel), added, before);
      }
    }
  }

  /** And one more object. */
  lemma ObjectsNext(e: Evaluator, objects: seq<NodeRef>, j: nat, relations: seq<string>, added: seq<Stop>, before: set<NodeRef>, some: seq<Stop>, found: set<NodeRef>)
    requires j < |objects| && before <= found
    requires RelationsListed(e, objects[..j], relations, added, before) && RelationsListed(e, [objects[j]], relations, some, found)
    ensures RelationsListed(e, objects[..j + 1], relations, added + some, found)
  {
    NodesJoin(added, some);
    assert objects[..j + 1] == objects[..j] + [objects[j]];
    forall o, rel | o in objects[..j + 1] && rel in relations ensures EdgesListed(e.edges(o, rel), added + some, found) {
      if o in objects[..j] {
        assert EdgesListed(e.edges(o, rel), added, before);
      } else {
        assert o in [objects[j]] && EdgesListed(e.edges(o, rel), some, found);
      }
    }
  }

  lemma AllListed(e: Evaluator, node: NodeRef, objects: seq<NodeRef>, relations: seq<string>, added: seq<Stop>, found: set<NodeRef>)
    requires RelationsListed(e, objects, relations, added, found)
    requires node in objects && Star(node.typ) in objects && forall rel :: rel in e.schema.relations ==> rel in relations
    ensures Listed(e, node, added, found)
  {
    forall named | NamesNode(e, node, named) ensures named in Nodes(added) && named in found {
      var rel, ed :| rel in e.schema.relations && (ed in e.edges(node, rel) || ed in e.edges(Star(node.typ), rel)) && named == ed.subject.node;
      assert EdgesListed(e.edges(node, rel), added, found) && EdgesListed(e.edges(Star(node.typ), rel), added, found);
    }
  }

  /** One item: its own edges and its star's, relation by relation. */
  method ScanNamed(e: Evaluator, ghost resource: NodeRef, relations: seq<string>, item: Stop, found0: set<NodeRef>, queue0: seq<Stop>)
    returns (found: set<NodeRef>, queue: seq<Stop>, full: bool, ghost added: seq<Stop>)
    requires ForwardReached(e, resource, item.node)
    requires forall rel :: rel in relations <==> rel in e.schema.relations
    requires |found0| < 1000 && forall node :: node in found0 ==> SubjectCandidate(e, resource, node)
    ensures queue == queue0 + added && found0 <= found && Fans(e, item.node, item.depth, added)
    ensures forall node :: node in found ==> SubjectCandidate(e, resource, node)
    ensures if full then |found| == 1000 else |found| < 1000 && Listed(e, item.node, added, found)
  {
    found, queue, added := found0, queue0, [];
    var objects := [item.node];
    if !item.node.IsWildcard() {
      objects := objects + [Star(item.node.typ)];
    }
    for j := 0 to |objects|
      invariant queue == queue0 + added && found0 <= found && |found| < 1000 && Fans(e, item.node, item.depth, added)
      invariant forall node :: node in found ==> SubjectCandidate(e, resource, node)
      invariant RelationsListed(e, objects[..j], relations, added, found)
    {
      ghost var some, before := [], found;
      found, queue, full, some := ScanObject(e, resource, relations, item, objects[j], found, queue);
      FansJoin(e, item.node, item.depth, queue0, added, some);
      if full {
        added := added + some;
        return;
      }
      ObjectsNext(e, objects, j, relations, added, before, some, found);
      added := added + some;
    }
    assert objects[..|objects|] == objects;
    assert item.node == objects[0] && Star(item.node.typ) == objects[|objects| - 1];
    AllListed(e, item.node, objects, relations, added, found);
    full := false;
  }

  /** The edges of one object, relation by relation. */
  method ScanObject(e: Evaluator, ghost resource: NodeRef, relations: seq<string>, item: Stop, obj: NodeRef, found0: set<NodeRef>, queue0: seq<Stop>)
    returns (found: set<NodeRef>, queue: seq<Stop>, full: bool, ghost added: seq<Stop>)
    requires ForwardReached(e, resource, item.node) && (obj == item.node || obj == Star(item.node.typ))
    requires forall rel :: rel in relations <==> rel in e.schema.relations
    requires |found0| < 1000 && forall node :: node in found0 ==> SubjectCandidate(e, resource, node)
    ensures queue == queue0 + added && found0 <= found && Fans(e, item.node, item.depth, added)
    ensures forall node :: node in found ==> SubjectCandidate(e, resource, node)
    ensures if full then |found| == 1000 else |found| < 1000 && RelationsListed(e, [obj], relations, added, found)
  {
    found, queue, added := found0, queue0, [];
    for k := 0 to |relations|
      invariant queue == queue0 + added && found0 <= found && |found| < 1000 && Fans(e, item.node, item.depth, added)
      invariant forall node :: node in found ==> SubjectCandidate(e, resource, node)
      invariant RelationsListed(e, [obj], relations[..k], added, found)
    {
      ghost var some, before := [], found;
      assert relations[k] in relations;
      found, queue, full, some := ScanEdges(e, resource, item, obj, relations[k], found, queue);
      FansJoin(e, item.node, item.depth, queue0, added, some);
      if full {
        added := added + some;
        return;
      }
      RelationsNext(e, obj, relations, k, added, before, some, found);
      added := added + some;
    }
    assert relations[..|relations|] == relations;
    full := false;
  }

  lemma EdgeListed(edges: seq<Edge>, i: nat, added: seq<Stop>, next: Stop, found: set<NodeRef>)
    requires i < |edges| && next.node == edges[i].subject.node && next.node in found
    requires EdgesListed(edges[..i], added, found)
    ensures EdgesListed(edges[..i + 1], added + [next], found)
  {
    assert edges[..i + 1] == edges[..i] + [edges[i]];
    NodesJoin(added, [next]);
    assert next in [next];
  }

  method ScanEdges(e: Evaluator, ghost resource: NodeRef, item: Stop, obj: NodeRef, rel: string, found0: set<NodeRef>, queue0: seq<Stop>)
    returns (found: set<NodeRef>, queue: seq<Stop>, full: bool, ghost added: seq<Stop>)
    requires ForwardReached(e, resource, item.node) && rel in e.schema.relations && (obj == item.node || obj == Star(item.node.typ))
    requires |found0| < 1000 && forall node :: node in found0 ==> SubjectCandidate(e, resource, node)
    ensures queue == queue0 + added && found0 <= found && Fans(e, item.node, item.depth, added)
    ensures forall node :: node in found ==> SubjectCandidate(e, resource, node)
    ensures if full then |found| == 1000 else |found| < 1000 && EdgesListed(e.edges(obj, rel), added, found)
  {
    found, queue, added := found0, queue0, [];
    var edges := e.edges(obj, rel);
    for i := 0 to |edges|
      invariant queue == queue0 + added && found0 <= found && |found| < 1000 && Fans(e, item.node, item.depth, added)
      invariant forall node :: node in found ==> SubjectCandidate(e, resource, node)
      invariant EdgesListed(edges[..i], added, found)
    {
      var subject := edges[i].subject.node;
      assert NamesNode(e, item.node, subject);
      NamedReached(e, resource, item.node, subject);
      found := found + {subject};
      if |found| >= DEFAULT_MAX_CANDIDATES {
        return found, queue, true, added;
      }
      var next := [Stop(subject, item.depth + 1)];
      EdgeListed(edges, i, added, next[0], found);
      FansJoin(e, item.node, item.depth, queue0, added, next);
      added := added + next;
      queue := queue + next;
    }
    assert edges[..|edges|] == edges;
    full := false;
  }

  /** The concrete nodes Check allows, in their order, and whether there is a star node; or the first error. */
  method ConfirmedSubjects(e: Evaluator, resource: NodeRef, action: string, nodes: seq<NodeRef>, now: int) returns (r: Result<(seq<NodeRef>, bool), ListError>)
    requires Ascending(NodeLess, nodes)
    ensures r.Ok? ==> Ascending(NodeLess, r.value.0) && (r.value.1 <==> exists node :: node in nodes && node.id == "*")
    ensures r.Ok? ==> forall node :: node in r.value.0 <==> node in nodes && node.id != "*" && Allows(e, Request(node, action, resource), now)
    ensures r.Err? ==>
      r.error.ListCheckFailed? && exists node :: node in nodes && !node.IsWildcard() && FailsWith(e, Request(node, action, resource), now, r.error.error)
  {
    var subjects: seq<NodeRef> := [];
    var all := false;
    for i := 0 to |nodes|
      invariant Ascending(NodeLess, subjects)
      invariant all <==> exists node :: node in nodes[..i] && node.id == "*"
      invariant forall node :: node in subjects <==> node in nodes[..i] && node.id != "*" && Allows(e, Request(node, action, resource), now)
    {
      assert nodes[..i + 1] == nodes[..i] + [nodes[i]];
      if nodes[i].IsWildcard() {
        all := true;
        continue;
      }
      var d := Check(e, Request(nodes[i], action, resource), now);
      if d.Err? {
        assert nodes[i] in nodes && FailsWith(e, Request(nodes[i], action, resource), now, d.error);
        return Err(ListCheckFailed(d.error));
      }
      if d.value.allowed {
        ExtendAscending(nodes, i, subjects);
        subjects := subjects + [nodes[i]];
      }
    }
    assert nodes[..|nodes|] == nodes;
    r := Ok((subjects, all));
  }

  lemma StarOf(node: NodeRef)
    ensures node.id == "*" <==> node.IsWildcard()
    ensures node.IsWildcard() ==> node == Star(node.typ)
  {
  }

  /** The principals that may perform an action on one object, each confirmed by Check. */
  method ListSubjects(e: Evaluator, resource: NodeRef, action: string, now: int, ghost store: set<Edge>)
    returns (r: Result<SubjectList, ListError>)
    requires Stored(e, store)
    ensures r == Err(ListInvalidResource) <==> !resource.Valid()
    ensures r == Err(ListUnknownType) <==> resource.Valid() && resource.typ !in e.schema.types
    ensures r.Err? && resource.Valid() && resource.typ in e.schema.types ==>
      r.error.ListCheckFailed? && exists node :: SubjectCandidate(e, resource, node) && !node.IsWildcard() && FailsWith(e, Request(node, action, resource), now, r.error.error)
    ensures resource.Valid() && resource.typ in e.schema.types && !e.schema.HasRule(resource.typ, action) ==> r == Ok(SubjectList([], false, false))
    ensures r.Ok? ==>
      && Ascending(NodeLess, r.value.subjects)
      && (r.value.all ==> exists typ: string :: SubjectCandidate(e, resource, Star(typ)))
      && forall node :: node in r.value.subjects ==> !node.IsWildcard() && Allows(e, Request(node, action, resource), now)
    ensures r.Ok? && e.schema.HasRule(resource.typ, action) ==> exists found: set<NodeRef> ::
      && GatheredSubjects(e, resource, found, r.value.truncated)
      && (r.value.all <==> exists node :: node in found && node.id == "*")
      && forall node :: node in r.value.subjects <==> node in found && node.id != "*" && Allows(e, Request(node, action, resource), now)
    ensures r.Ok? && r.value.truncated ==> SubjectsOverflow(e, resource)
    ensures r.Ok? && !r.value.truncated && InhabitedSchema(e.schema) ==>
      forall node: NodeRef :: !node.IsWildcard() && Allows(e, Request(node, action, resource), now) ==> r.value.all || node in r.value.subjects
  {
    if !resource.Valid() {
      return Err(ListInvalidResource);
    }
    if resource.typ !in e.schema.types {
      return Err(ListUnknownType);
    }
    if action !in e.schema.types[resource.typ].rules {
      return Ok(SubjectList([], false, false));
    }
    var c := CandidateSubjects(e, resource, store);
    var nodes := SortedNodes(c.found);
    var confirmed := ConfirmedSubjects(e, resource, action, nodes, now);
    if confirmed.Err? {
      return Err(confirmed.error);
    }
    var subjects, all := confirmed.value.0, confirmed.value.1;
    assert forall node :: node in nodes <==> node in c.found;
    if all {
      var node :| node in nodes && node.id == "*";
      StarOf(node);
      assert SubjectCandidate(e, resource, Star(node.typ));
    }
    forall node: NodeRef | !c.truncated && InhabitedSchema(e.schema) && !node.IsWildcard() && Allows(e, Request(node, action, resource), now)
      ensures all || node in subjects
    {
      AllowedSubjectIsCandidate(e, Request(node, action, resource), now);
      StarOf(Star(node.typ));
    }
    r := Ok(SubjectList(subjects, all, c.truncated));
  }
}

/**
 * Which schemas let the backward search find everything, and a star grant that it
 * misses in another (core/reach/reverse.go:136-199).
 */
module ReverseReach {
  import opened Wrappers
  import opened Graph
  import opened Schemas
  import opened Walk
  import opened Levels
  import opened Candidacy
  import opened Checks
  import opened Delegate
  import opened Validation
  import opened Reverse
  import opened Knots
  import Delegation
  import Text

  /** By its declarations: no relation admits stars, and relations crossed by an arrow lead to plain nodes. */
  ghost predicate PlainlyDeclared(schema: Schema) {
    && (forall rel :: rel in schema.relations ==> schema.relations[rel].wildcard.WildcardNone?)
    && (forall typ, rel, target :: Admits(schema, typ, rel, target) && Crossed(schema, rel) ==> target.relation == "")
  }

  ghost predicate Crossed(schema: Schema, rel: string) {
    exists typ, a :: schema.HasRule(typ, a) && Crosses(schema.Rule(typ, a), rel)
  }

  /** Over such a schema every store of writable edges can be searched backwards without missing anyone. */
  lemma PlainSchemaIsInvertible(e: Evaluator, rev: NodeRef -> seq<Edge>)
    requires ValidSchema(e.schema) && PlainlyDeclared(e.schema)
    requires Delegation.WritableStore(e) && ReverseOf(e, rev)
    ensures Invertible(e, rev)
  {
    ValidatedSchemaIsClean(e.schema);
    forall obj: NodeRef, rel: string, ed | ed in e.edges(obj, rel)
      ensures !obj.IsWildcard() && !ed.subject.node.IsWildcard()
      ensures Crossed(e.schema, rel) ==> !ed.subject.IsUserset()
    {
      assert Writable(e.schema, ed) && rel in e.schema.relations;
      var target :| target in e.schema.types[obj.typ].relations[rel] && TargetAllows(target, ed.subject);
      assert Admits(e.schema, obj.typ, rel, target);
    }
  }

  /** What is allowed is a candidate, or the star of its type is allowed too. */
  ghost predicate IsSeen(e: Evaluator, rev: NodeRef -> seq<Edge>, subject: NodeRef, action: string, node: NodeRef, now: int) {
    Allows(e, Request(subject, action, node), now) ==>
      ObjectCandidate(rev, subject, node.typ, node) || Allows(e, Request(subject, action, Star(node.typ)), now)
  }

  /** On every writable store and faithful index the backward search misses no allowed object. */
  ghost predicate SearchIsComplete(schema: Schema) {
    forall e: Evaluator, rev: NodeRef -> seq<Edge>, subject: NodeRef, action: string, node: NodeRef, now: int ::
      e.schema == schema && Delegation.WritableStore(e) && ReverseOf(e, rev) && !node.IsWildcard() ==>
        IsSeen(e, rev, subject, action, node, now)
  }

  lemma PlainSchemaIsComplete(schema: Schema)
    requires ValidSchema(schema) && PlainlyDeclared(schema)
    ensures SearchIsComplete(schema)
  {
    forall e: Evaluator, rev: NodeRef -> seq<Edge>, subject: NodeRef, action: string, node: NodeRef, now: int |
      e.schema == schema && Delegation.WritableStore(e) && ReverseOf(e, rev) && Allows(e, Request(subject, action, node), now)
      ensures IsSeen(e, rev, subject, action, node, now)
    {
      PlainSchemaIsInvertible(e, rev);
      AllowedObjectIsCandidate(e, rev, Request(subject, action, node), now);
    }
  }

  // ---- A relation that admits stars ----

  /** Documents shared with users under one relation, which may admit stars. */
  function OpenSchema(r: string, w: WildcardPos): Schema {
    Schema(
      "open",
      ["read"],
      map[r := RelationDef(r, false, w)],
      map["user" := TypeDef("user", map[], map[]),
          "doc" := TypeDef("doc", map[r := [TargetSpec("user", "")]], map["read" := RelationTerm(r)])])
  }

  lemma OpenSchemaIsValid(r: string, w: WildcardPos)
    requires Text.ValidIdent(r)
    ensures ValidSchema(OpenSchema(r, w))
  {
    PairNames();
    var schema := OpenSchema(r, w);
    var doc := schema.types["doc"];
    assert "open"[0] == 'o';
    assert ValidTarget(schema, TargetSpec("user", ""));
    assert ValidRelations(schema, doc) && ValidRelations(schema, schema.types["user"]);
    assert ExprCycleFree(doc, RelationTerm(r), {} + {"read"});
    assert CycleFree(doc, "read", {});
    assert ValidRules(schema, doc) && ValidRules(schema, schema.types["user"]);
  }

  ghost predicate IsHere(env: Env, rel: string, ed: Edge)
    requires rel in env.schema.relations
  {
    ed.Active(env.now) && GoalOf(env, RelationTerm(rel), ed).Here?
  }

  /** Edges that ask nothing are matched exactly when one names the caller. */
  lemma {:induction false} PlainEdges(env: Env, rel: string, edges: seq<Edge>, memo: Memo)
    requires rel in env.schema.relations
    requires forall ed :: ed in edges ==> !GoalOf(env, RelationTerm(rel), ed).Ask?
    ensures var a := Follow(env, RelationTerm(rel), edges, 0, memo);
            !a.out.Failed? && (a.out.Matched? <==> exists ed :: ed in edges && IsHere(env, rel, ed))
            && a.memo.excluded == memo.excluded
    decreases |edges|
  {
    if edges != [] {
      assert forall ed :: ed in edges <==> ed == edges[0] || ed in edges[1..];
      PlainEdges(env, rel, edges[1..], memo);
      assert edges[0] in edges && !GoalOf(env, RelationTerm(rel), edges[0]).Ask?;
      if IsHere(env, rel, edges[0]) {
        assert Follow(env, RelationTerm(rel), edges, 0, memo).out.Matched?;
      } else {
        assert Follow(env, RelationTerm(rel), edges, 0, memo) == Follow(env, RelationTerm(rel), edges[1..], 0, memo);
      }
    }
  }

  lemma OpenEdges(e: Evaluator, r: string, w: WildcardPos, obj: NodeRef, ed: Edge)
    requires e.schema == OpenSchema(r, w) && Delegation.WritableStore(e) && ed in e.edges(obj, r)
    ensures ed.obj == obj && ed.relation == r && obj.typ == "doc" && !ed.subject.IsUserset()
    ensures ed.subject.node.IsWildcard() ==> w.AllowsSubject()
  {
    PairNames();
    assert Writable(e.schema, ed);
  }

  /** A check of such a schema looks for one edge that names the caller. */
  lemma OpenCheck(e: Evaluator, r: string, w: WildcardPos, subject: NodeRef, node: NodeRef, now: int)
    requires e.schema == OpenSchema(r, w) && Delegation.WritableStore(e)
    requires subject.Valid() && node.Valid() && node.typ == "doc"
    ensures var env := EnvOf(e, subject, now);
            Allows(e, Request(subject, "read", node), now) <==>
              exists ed :: ed in OutEdges(env, node, RelationTerm(r)) && IsHere(env, r, ed)
  {
    var env := EnvOf(e, subject, now);
    var edges := OutEdges(env, node, RelationTerm(r));
    PairNames();
    TermAnswer(env, node, RelationTerm(r), 0, EMPTY_MEMO);
    forall ed | ed in edges ensures !GoalOf(env, RelationTerm(r), ed).Ask? {
      OpenEdges(e, r, w, if ed in e.edges(node, r) then node else Star("doc"), ed);
    }
    PlainEdges(env, r, edges, Opened(EMPTY_MEMO, Key(node, RelationTerm(r))));
    assert e.schema.actions[0] == "read";
  }

  lemma OpenRequest(e: Evaluator, r: string, w: WildcardPos, req: Request, now: int)
    requires e.schema == OpenSchema(r, w) && Allows(e, req, now)
    ensures req.action == "read" && req.resource.typ == "doc" && req.subject.Valid() && req.resource.Valid()
  {
    PairNames();
  }

  /** Without star subjects nobody is missed. */
  lemma ClosedIsSeen(e: Evaluator, rev: NodeRef -> seq<Edge>, r: string, w: WildcardPos, subject: NodeRef, node: NodeRef, now: int)
    requires e.schema == OpenSchema(r, w) && !w.AllowsSubject() && Delegation.WritableStore(e) && ReverseOf(e, rev)
    requires !node.IsWildcard() && Allows(e, Request(subject, "read", node), now)
    ensures IsSeen(e, rev, subject, "read", node, now)
  {
    var env := EnvOf(e, subject, now);
    OpenRequest(e, r, w, Request(subject, "read", node), now);
    OpenCheck(e, r, w, subject, node, now);
    var ed :| ed in OutEdges(env, node, RelationTerm(r)) && IsHere(env, r, ed);
    if ed in e.edges(node, r) {
      OpenEdges(e, r, w, node, ed);
      assert BackIn(rev, subject, 0, Point(subject, "")) && Carries(rev, Point(subject, ""), ed);
    } else {
      StarIsAllowed(e, r, w, subject, ed, now);
    }
  }

  lemma StarIsAllowed(e: Evaluator, r: string, w: WildcardPos, subject: NodeRef, ed: Edge, now: int)
    requires e.schema == OpenSchema(r, w) && Delegation.WritableStore(e) && subject.Valid()
    requires ed in e.edges(Star("doc"), r) && IsHere(EnvOf(e, subject, now), r, ed)
    ensures Allows(e, Request(subject, "read", Star("doc")), now)
  {
    PairNames();
    assert WILDCARD[0] == '*';
    OpenCheck(e, r, w, subject, Star("doc"), now);
    assert ed in OutEdges(EnvOf(e, subject, now), Star("doc"), RelationTerm(r));
  }

  // ---- A document granted to everyone ----

  function OpenEdge(r: string): Edge {
    Standing(DOC, r, SubjectRef(Star("user"), ""))
  }

  function OpenStore(r: string, w: WildcardPos, maxDepth: nat): Evaluator {
    Evaluator(OpenSchema(r, w), (obj: NodeRef, rel: string) => if obj == DOC && rel == r then [OpenEdge(r)] else [], maxDepth)
  }

  function OpenIndex(r: string): NodeRef -> seq<Edge> {
    (node: NodeRef) => if node == Star("user") then [OpenEdge(r)] else []
  }

  lemma OpenStoreIsWritable(r: string, w: WildcardPos, maxDepth: nat)
    requires w.AllowsSubject()
    ensures Delegation.WritableStore(OpenStore(r, w, maxDepth))
  {
    PairNames();
    var target := OpenSchema(r, w).types["doc"].relations[r][0];
    assert TargetAllows(target, OpenEdge(r).subject);
  }

  /** A search from a node no edge names stays where it is. */
  lemma {:induction false} NothingBehind(rev: NodeRef -> seq<Edge>, subject: NodeRef, n: nat, at: Point)
    requires rev(subject) == [] && BackIn(rev, subject, n, at)
    ensures n == 0 && at == Point(subject, "")
  {
    if n > 0 {
      var prev: Point :| BackIn(rev, subject, n - 1, prev) && LeadsBack(rev, prev, at);
      NothingBehind(rev, subject, n - 1, prev);
    }
  }

  /** What a subject named nowhere is answered: nothing, and nothing is cut off. */
  lemma NothingFound(e: Evaluator, rev: NodeRef -> seq<Edge>, subject: NodeRef, typ: string)
    requires rev(subject) == [] && e.maxDepth >= 2
    ensures forall node :: !ObjectCandidate(rev, subject, typ, node)
    ensures !ObjectsOverflow(e, rev, subject, typ)
  {
    forall node ensures !ObjectCandidate(rev, subject, typ, node) {
      if ObjectCandidate(rev, subject, typ, node) {
        var at: Point, ed :| BackReached(rev, subject, at) && Carries(rev, at, ed) && ed.obj == node;
        var n: nat :| BackIn(rev, subject, n, at);
        NothingBehind(rev, subject, n, at);
      }
    }
    forall found: set<NodeRef> | forall node :: node in found ==> ObjectCandidate(rev, subject, typ, node) ensures |found| == 0 {
      assert found == {};
    }
    forall n: nat, p | Nearest(Point(subject, ""), BackStep(rev), n, p) ensures n == 0 {
      NothingBehind(rev, subject, n, p);
    }
  }

  /**
   * A document granted to everyone: Check allows it to a caller, the star of its
   * type is not allowed, and the backward search, cut off nowhere, does not find it.
   */
  lemma StarGrantIsMissed(r: string, w: WildcardPos, maxDepth: nat, now: int)
    requires w.AllowsSubject() && maxDepth >= 2
    ensures var e, rev := OpenStore(r, w, maxDepth), OpenIndex(r);
            && Delegation.WritableStore(e) && ReverseOf(e, rev)
            && Allows(e, ASK, now) && !Allows(e, Request(ANN, "read", Star("doc")), now)
            && !ObjectCandidate(rev, ANN, "doc", DOC) && !ObjectsOverflow(e, rev, ANN, "doc")
  {
    PairNames();
    OpenStoreIsWritable(r, w, maxDepth);
    NothingFound(OpenStore(r, w, maxDepth), OpenIndex(r), ANN, "doc");
    OpenAnswers(r, w, maxDepth, now);
  }

  lemma OpenAnswers(r: string, w: WildcardPos, maxDepth: nat, now: int)
    requires w.AllowsSubject()
    ensures var e := OpenStore(r, w, maxDepth);
            Allows(e, ASK, now) && !Allows(e, Request(ANN, "read", Star("doc")), now)
  {
    var e := OpenStore(r, w, maxDepth);
    var env := EnvOf(e, ANN, now);
    PairNames();
    OpenStoreIsWritable(r, w, maxDepth);
    assert WILDCARD[0] == '*';
    OpenCheck(e, r, w, ANN, DOC, now);
    assert OpenEdge(r) in OutEdges(env, DOC, RelationTerm(r)) && IsHere(env, r, OpenEdge(r));
    OpenCheck(e, r, w, ANN, Star("doc"), now);
    assert OutEdges(env, Star("doc"), RelationTerm(r)) == [];
  }

  /** Over one relation the backward search misses nobody exactly when it admits no star subjects. */
  lemma OpenIsCompleteIff(r: string, w: WildcardPos)
    requires Text.ValidIdent(r)
    ensures ValidSchema(OpenSchema(r, w))
    ensures SearchIsComplete(OpenSchema(r, w)) <==> !w.AllowsSubject()
  {
    OpenSchemaIsValid(r, w);
    if w.AllowsSubject() {
      PairNames();
      StarGrantIsMissed(r, w, 2, 0);
      assert !IsSeen(OpenStore(r, w, 2), OpenIndex(r), ANN, "read", DOC, 0);
    } else {
      forall e: Evaluator, rev: NodeRef -> seq<Edge>, subject: NodeRef, action: string, node: NodeRef, now: int |
        e.schema == OpenSchema(r, w) && Delegation.WritableStore(e) && ReverseOf(e, rev) && !node.IsWildcard()
        && Allows(e, Request(subject, action, node), now)
        ensures IsSeen(e, rev, subject, action, node, now)
      {
        OpenRequest(e, r, w, Request(subject, action, node), now);
        ClosedIsSeen(e, rev, r, w, subject, node, now);
      }
    }
  }
}
