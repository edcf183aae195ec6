/**
 * The memoised, cycle-breaking, depth-bounded walk (core/reach/walk.go) as a
 * function from the memo before a call to the answer and the memo after it.
 * Class Runs.Run performs the same walk by updating its fields.
 */
module Walk {
  import opened Graph
  import opened Schemas

  /** What one evaluation reads: fixed for the duration of a query. */
  datatype Env = Env(
    schema: Schema,
    edges: (NodeRef, string) -> seq<Edge>,
    subject: NodeRef,
    now: int,
    maxDepth: nat)

  datatype WalkError = DepthExceeded(at: NodeRef) | UnknownExpression

  datatype Outcome = Matched(path: seq<Step>) | Missed | Failed(error: WalkError)

  /** A memoised term: a relation, a rule reference or an arrow at one object. */
  datatype Key = Key(obj: NodeRef, term: Expr)

  datatype Mark = Open | Dead

  datatype Memo = Memo(marks: map<Key, Mark>, excluded: bool)

  const EMPTY_MEMO := Memo(map[], false)

  datatype Answer = Answer(out: Outcome, memo: Memo)

  /** What one active edge asks next. */
  datatype Goal = Here | Ask(node: NodeRef, term: Expr) | Nothing

  /** The object's own edges, and its type's star node when the relation admits one. */
  function EdgesFor(env: Env, obj: NodeRef, rel: string, def: RelationDef): seq<Edge> {
    if obj.IsWildcard() || !def.wildcard.AllowsObject() then env.edges(obj, rel)
    else env.edges(obj, rel) + env.edges(Star(obj.typ), rel)
  }

  predicate MatchesSubject(env: Env, n: NodeRef, def: RelationDef) {
    || n == env.subject
    || (n.IsWildcard() && def.wildcard.AllowsSubject() && n.typ == env.subject.typ)
  }

  /** A relation or arrow term over a declared relation. */
  predicate Declared(env: Env, term: Expr) {
    (term.RelationTerm? || term.ArrowTerm?) && term.relation in env.schema.relations
  }

  function OutEdges(env: Env, obj: NodeRef, term: Expr): seq<Edge>
    requires Declared(env, term)
  {
    EdgesFor(env, obj, term.relation, env.schema.relations[term.relation])
  }

  /** The far term of an arrow: the far type's rule when it has one, else its relation. */
  function FarTerm(env: Env, typ: string, target: string): Expr {
    if env.schema.HasRule(typ, target) then RuleTerm(target) else RelationTerm(target)
  }

  function GoalOf(env: Env, term: Expr, ed: Edge): Goal
    requires Declared(env, term)
  {
    match term
    case ArrowTerm(_, target) => Ask(ed.subject.node, FarTerm(env, ed.subject.node.typ, target))
    case RelationTerm(rel) =>
      var def := env.schema.relations[rel];
      if ed.subject.IsUserset() then Ask(ed.subject.node, RelationTerm(ed.subject.relation))
      else if MatchesSubject(env, ed.subject.node, def) then Here
      else if def.transitive then Ask(ed.subject.node, RelationTerm(rel))
      else Nothing
  }

  /** Depth left, doubled to make room for the edge loop between two levels. */
  function Room(env: Env, depth: nat): nat {
    if depth <= env.maxDepth then 2 * (env.maxDepth + 1 - depth) else 0
  }

  /** The rules of the object's type this run has not entered yet. */
  function Unentered(env: Env, obj: NodeRef, memo: Memo): set<string> {
    set a | a in env.schema.RuleNames(obj.typ) && Key(obj, RuleTerm(a)) !in memo.marks
  }

  function Satisfies(env: Env, obj: NodeRef, expr: Expr, depth: nat, memo: Memo): (r: Answer)
    ensures memo.marks.Keys <= r.memo.marks.Keys
    decreases Room(env, depth), Unentered(env, obj, memo), expr, 1
  {
    if depth > env.maxDepth then Answer(Failed(DepthExceeded(obj)), memo)
    else match expr
      case RelationTerm(_) => Remember(Key(obj, expr), memo, FollowTerm(env, obj, expr, depth, memo))
      case ArrowTerm(_, _) => Remember(Key(obj, expr), memo, FollowTerm(env, obj, expr, depth, memo))
      case RuleTerm(a) =>
        var entered := Opened(memo, Key(obj, expr));
        if Key(obj, expr) !in memo.marks && env.schema.HasRule(obj.typ, a) then
          assert Unentered(env, obj, entered) < Unentered(env, obj, memo) by {
            assert a in Unentered(env, obj, memo);
          }
          Remember(Key(obj, expr), memo, Satisfies(env, obj, env.schema.Rule(obj.typ, a), depth, entered))
        else
          Remember(Key(obj, expr), memo, Answer(Missed, entered))
      case Union(terms) => AnyOf(env, obj, terms, depth, memo)
      case Intersect(terms) => AllOf(env, obj, terms, depth, memo)
      case Exclude(base, subtract) =>
        var b := Satisfies(env, obj, base, depth, memo);
        if !b.out.Matched? then b else
        var s := Satisfies(env, obj, subtract, depth, b.memo);
        (match s.out
         case Failed(_) => s
         case Matched(_) => Answer(Missed, s.memo.(excluded := true))
         case Missed => Answer(b.out, s.memo))
      case IdentTerm(_) => Answer(Failed(UnknownExpression), memo)
  }

  function Opened(memo: Memo, key: Key): Memo {
    memo.(marks := memo.marks[key := Open])
  }

  /** The answer of a memoised term, given the answer of its body from the opened memo. */
  function Remember(key: Key, memo: Memo, body: Answer): (r: Answer)
  {
    if key in memo.marks then Answer(Missed, memo)
    else match body.out
      case Failed(_) => body
      case Matched(_) => Answer(body.out, body.memo.(marks := body.memo.marks - {key}))
      case Missed => Answer(Missed, body.memo.(marks := body.memo.marks[key := Dead]))
  }

  /** The body of a relation or arrow term; an undeclared relation reaches nothing. */
  function FollowTerm(env: Env, obj: NodeRef, term: Expr, depth: nat, memo: Memo): (r: Answer)
    requires term.RelationTerm? || term.ArrowTerm?
    requires depth <= env.maxDepth
    ensures memo.marks.Keys + {Key(obj, term)} <= r.memo.marks.Keys
    decreases 2 * (env.maxDepth - depth) + 1, 1
  {
    var entered := Opened(memo, Key(obj, term));
    if !Declared(env, term) then Answer(Missed, entered)
    else Follow(env, term, OutEdges(env, obj, term), depth, entered)
  }

  /** Crosses the active edges in order and stops at the first that answers. */
  function Follow(env: Env, term: Expr, edges: seq<Edge>, depth: nat, memo: Memo): (r: Answer)
    requires Declared(env, term)
    requires depth <= env.maxDepth
    ensures memo.marks.Keys <= r.memo.marks.Keys
    decreases 2 * (env.maxDepth - depth) + 1, 0, |edges|
  {
    if edges == [] then Answer(Missed, memo)
    else
      var ed := edges[0];
      if !ed.Active(env.now) then Follow(env, term, edges[1..], depth, memo)
      else match GoalOf(env, term, ed)
        case Here => Answer(Matched([StepOf(ed)]), memo)
        case Nothing => Follow(env, term, edges[1..], depth, memo)
        case Ask(node, next) =>
          var a := Satisfies(env, node, next, depth + 1, memo);
          match a.out
          case Failed(_) => a
          case Matched(path) => Answer(Matched([StepOf(ed)] + path), a.memo)
          case Missed => Follow(env, term, edges[1..], depth, a.memo)
  }

  function AnyOf(env: Env, obj: NodeRef, terms: seq<Expr>, depth: nat, memo: Memo): (r: Answer)
    ensures memo.marks.Keys <= r.memo.marks.Keys
    decreases Room(env, depth), Unentered(env, obj, memo), terms, 0
  {
    if terms == [] then Answer(Missed, memo)
    else
      var a := Satisfies(env, obj, terms[0], depth, memo);
      if a.out.Missed? then AnyOf(env, obj, terms[1..], depth, a.memo) else a
  }

  function AllOf(env: Env, obj: NodeRef, terms: seq<Expr>, depth: nat, memo: Memo): (r: Answer)
    ensures memo.marks.Keys <= r.memo.marks.Keys
    decreases Room(env, depth), Unentered(env, obj, memo), terms, 0
  {
    if terms == [] then Answer(Matched([]), memo)
    else
      var a := Satisfies(env, obj, terms[0], depth, memo);
      if !a.out.Matched? then a else
      var rest := AllOf(env, obj, terms[1..], depth, a.memo);
      if rest.out.Matched? then Answer(Matched(a.out.path + rest.out.path), rest.memo) else rest
  }

  /** The body of a memoised term, asked from the opened memo. */
  function TermBody(env: Env, obj: NodeRef, term: Expr, depth: nat, entered: Memo): Answer
    requires term.RelationTerm? || term.RuleTerm? || term.ArrowTerm?
    requires depth <= env.maxDepth
  {
    if term.RuleTerm? then
      if env.schema.HasRule(obj.typ, term.action) then Satisfies(env, obj, env.schema.Rule(obj.typ, term.action), depth, entered)
      else Answer(Missed, entered)
    else if Declared(env, term) then Follow(env, term, OutEdges(env, obj, term), depth, entered)
    else Answer(Missed, entered)
  }

  lemma TermAnswer(env: Env, obj: NodeRef, term: Expr, depth: nat, memo: Memo)
    requires term.RelationTerm? || term.RuleTerm? || term.ArrowTerm?
    requires depth <= env.maxDepth
    ensures Satisfies(env, obj, term, depth, memo)
         == Remember(Key(obj, term), memo, TermBody(env, obj, term, depth, Opened(memo, Key(obj, term))))
  {
    if !term.RuleTerm? {
      assert FollowTerm(env, obj, term, depth, memo) == TermBody(env, obj, term, depth, Opened(memo, Key(obj, term)));
    }
  }
}
