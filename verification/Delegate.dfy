/**
 * Who may write an edge: the subset rule (core/reach/delegate.go).
 */
module Delegate {
  import opened Wrappers
  import opened Graph
  import opened Schemas
  import opened Sorting
  import opened Checks

  /** Named exceptions to the subset rule; any other name is refused. */
  datatype Carve = CarveNone | CarveRootOfTrust | CarveOther(name: string)

  datatype WriteError =
    | InvalidEdge
    | UndeclaredRelation
    | UnknownObjectType
    | RelationNotCarried
    | WildcardObjectRefused
    | WildcardSubjectRefused
    | IllegalTarget
    | UnknownCarve
    | InvalidGranter
    | GranterCheckFailed(error: CheckError)
    | Escalation(action: string, reason: Reason)

  /** The target names the subject's type and the relation followed at it. */
  predicate TargetAllows(target: TargetSpec, subject: SubjectRef) {
    target.typ == subject.node.typ && target.relation == subject.relation
  }

  /** The type declares the relation with that target. */
  predicate Admits(schema: Schema, typ: string, rel: string, target: TargetSpec) {
    typ in schema.types && rel in schema.types[typ].relations && target in schema.types[typ].relations[rel]
  }

  /** checkWritable: the schema's own limits on an edge, whoever writes it. */
  function Refusal(schema: Schema, edge: Edge): Option<WriteError> {
    if edge.relation !in schema.relations then Some(UndeclaredRelation)
    else if edge.obj.typ !in schema.types then Some(UnknownObjectType)
    else if edge.relation !in schema.types[edge.obj.typ].relations then Some(RelationNotCarried)
    else
      var wildcard := schema.relations[edge.relation].wildcard;
      if edge.obj.IsWildcard() && !wildcard.AllowsObject() then Some(WildcardObjectRefused)
      else if edge.subject.node.IsWildcard() && !wildcard.AllowsSubject() then Some(WildcardSubjectRefused)
      else if exists target :: target in schema.types[edge.obj.typ].relations[edge.relation] && TargetAllows(target, edge.subject) then None
      else Some(IllegalTarget)
  }

  predicate Writable(schema: Schema, edge: Edge) {
    Refusal(schema, edge).None?
  }

  /**
   * exprFeeds: the relation occurs in the unfolded expression outside every
   * subtracted side. `seen` holds the rules on the current path.
   */
  predicate ExprFeeds(t: TypeDef, expr: Expr, relation: string, seen: set<string>)
    decreases t.rules.Keys - seen, expr
  {
    match expr
    case RelationTerm(rel) => rel == relation
    case ArrowTerm(rel, _) => rel == relation
    case RuleTerm(a) => a !in seen && a in t.rules && ExprFeeds(t, t.rules[a], relation, seen + {a})
    case Union(terms) => exists term :: term in terms && ExprFeeds(t, term, relation, seen)
    case Intersect(terms) => exists term :: term in terms && ExprFeeds(t, term, relation, seen)
    case Exclude(base, _) => ExprFeeds(t, base, relation, seen)
    case IdentTerm(_) => false
  }

  /** The actions a relation can contribute to on a type. */
  function FedActions(schema: Schema, typ: string, relation: string): set<string> {
    if typ in schema.types then
      set a | a in schema.types[typ].rules && ExprFeeds(schema.types[typ], schema.types[typ].rules[a], relation, {})
    else {}
  }

  ghost function ActionsFed(schema: Schema, typ: string, relation: string): (xs: seq<string>)
    ensures Elements(xs) == FedActions(schema, typ, relation)
  {
    LessIsTotal();
    Listing(Less, FedActions(schema, typ, relation))
  }

  /** The first fed action the granter is not shown to hold on the object. */
  ghost function FirstLacking(e: Evaluator, granter: NodeRef, obj: NodeRef, actions: seq<string>, now: int): Option<WriteError> {
    if actions == [] then None
    else match CheckSpec(e, Request(granter, actions[0], obj), now)
      case Err(error) => Some(GranterCheckFailed(error))
      case Ok(d) => if d.allowed then FirstLacking(e, granter, obj, actions[1..], now) else Some(Escalation(actions[0], d.reason))
  }

  ghost function CanWriteSpec(e: Evaluator, granter: NodeRef, proposed: Edge, carve: Carve, now: int): Option<WriteError> {
    if !proposed.Valid() then Some(InvalidEdge)
    else if Refusal(e.schema, proposed).Some? then Refusal(e.schema, proposed)
    else match carve
      case CarveRootOfTrust => None
      case CarveOther(_) => Some(UnknownCarve)
      case CarveNone =>
        if !granter.Valid() then Some(InvalidGranter)
        else FirstLacking(e, granter, proposed.obj, ActionsFed(e.schema, proposed.obj.typ, proposed.relation), now)
  }

  method SortedActionsFed(schema: Schema, typ: string, relation: string) returns (xs: seq<string>)
    ensures xs == ActionsFed(schema, typ, relation)
  {
    LessIsTotal();
    xs := SortSet(Less, FedActions(schema, typ, relation));
  }

  /** None means the edge may be written. */
  method CanWrite(e: Evaluator, granter: NodeRef, proposed: Edge, carve: Carve, now: int) returns (refused: Option<WriteError>)
    ensures refused == CanWriteSpec(e, granter, proposed, carve, now)
  {
    if !proposed.Valid() {
      return Some(InvalidEdge);
    }
    refused := Refusal(e.schema, proposed);
    if refused.Some? {
      return;
    }
    match carve {
      case CarveRootOfTrust => return None;
      case CarveOther(_) => return Some(UnknownCarve);
      case CarveNone =>
    }
    if !granter.Valid() {
      return Some(InvalidGranter);
    }
    var actions := SortedActionsFed(e.schema, proposed.obj.typ, proposed.relation);
    refused := FindLacking(e, granter, proposed.obj, actions, now);
  }

  method FindLacking(e: Evaluator, granter: NodeRef, obj: NodeRef, actions: seq<string>, now: int) returns (refused: Option<WriteError>)
    ensures refused == FirstLacking(e, granter, obj, actions, now)
  {
    for i := 0 to |actions|
      invariant FirstLacking(e, granter, obj, actions[i..], now) == FirstLacking(e, granter, obj, actions, now)
    {
      assert actions[i..][1..] == actions[i + 1..];
      var d := Check(e, Request(granter, actions[i], obj), now);
      if d.Err? {
        return Some(GranterCheckFailed(d.error));
      }
      if !d.value.allowed {
        return Some(Escalation(actions[i], d.value.reason));
      }
    }
    refused := None;
  }
}
