/**
 * Check: may this subject perform this action on this resource, and if not, why
 * (core/reach/walk.go:26-185).
 */
module Checks {
  import opened Wrappers
  import opened Graph
  import opened Schemas
  import opened Sorting
  import opened Walk
  import opened Runs

  datatype Reason = ReasonAllowed | ReasonUnreachable | ReasonNoRule | ReasonExcluded

  datatype Decision = Decision(allowed: bool, reason: Reason, path: seq<Step>)

  datatype Request = Request(subject: NodeRef, action: string, resource: NodeRef)

  datatype CheckError = InvalidSubject | InvalidResource | UnknownAction | UnknownType | WalkFailed(error: WalkError)

  /** A schema, a resolver and a walk bound. */
  datatype Evaluator = Evaluator(schema: Schema, edges: (NodeRef, string) -> seq<Edge>, maxDepth: nat)

  function EnvOf(e: Evaluator, subject: NodeRef, now: int): Env {
    Env(e.schema, e.edges, subject, now, e.maxDepth)
  }

  /** A rule evaluated by a fresh run. */
  function AskRule(env: Env, resource: NodeRef, action: string): Answer
    requires env.schema.HasRule(resource.typ, action)
  {
    Satisfies(env, resource, env.schema.Rule(resource.typ, action), 0, EMPTY_MEMO)
  }

  /** The first of the actions that matches, a fresh run for each. */
  function ReachedBy(env: Env, resource: NodeRef, actions: seq<string>): Result<bool, WalkError>
    requires forall a :: a in actions ==> env.schema.HasRule(resource.typ, a)
  {
    if actions == [] then Ok(false)
    else match AskRule(env, resource, actions[0]).out
      case Failed(error) => Err(error)
      case Matched(_) => Ok(true)
      case Missed => ReachedBy(env, resource, actions[1..])
  }

  /** The type's other actions, sorted. */
  ghost function OtherActions(schema: Schema, typ: string, action: string): (xs: seq<string>)
    ensures forall a :: a in xs <==> a != action && schema.HasRule(typ, a)
  {
    LessIsTotal();
    var xs := Listing(Less, schema.RuleNames(typ) - {action});
    assert forall a :: a in xs <==> a in Elements(xs);
    xs
  }

  ghost function Decide(env: Env, resource: NodeRef, action: string): Result<Decision, CheckError> {
    var fallback :=
      match ReachedBy(env, resource, OtherActions(env.schema, resource.typ, action))
      case Err(error) => Err(WalkFailed(error))
      case Ok(true) => Ok(Decision(false, ReasonNoRule, []))
      case Ok(false) => Ok(Decision(false, ReasonUnreachable, []));
    if env.schema.HasRule(resource.typ, action) then
      var r := AskRule(env, resource, action);
      match r.out
      case Failed(error) => Err(WalkFailed(error))
      case Matched(path) => Ok(Decision(true, ReasonAllowed, path))
      case Missed => if r.memo.excluded then Ok(Decision(false, ReasonExcluded, [])) else fallback
    else fallback
  }

  /** The request's own defects, in the order they are reported. */
  function Defect(schema: Schema, req: Request): Option<CheckError> {
    if !req.subject.Valid() then Some(InvalidSubject)
    else if !req.resource.Valid() then Some(InvalidResource)
    else if !schema.HasAction(req.action) then Some(UnknownAction)
    else if req.resource.typ !in schema.types then Some(UnknownType)
    else None
  }

  ghost function CheckSpec(e: Evaluator, req: Request, now: int): Result<Decision, CheckError> {
    match Defect(e.schema, req)
    case Some(error) => Err(error)
    case None => Decide(EnvOf(e, req.subject, now), req.resource, req.action)
  }

  method Check(e: Evaluator, req: Request, now: int) returns (r: Result<Decision, CheckError>)
    ensures r == CheckSpec(e, req, now)
  {
    var defect := Defect(e.schema, req);
    if defect.Some? {
      return Err(defect.value);
    }
    var t := e.schema.types[req.resource.typ];
    if req.action in t.rules {
      var run := new Run(EnvOf(e, req.subject, now));
      var out := run.Satisfies(req.resource, t.rules[req.action], 0);
      if out.Failed? {
        return Err(WalkFailed(out.error));
      }
      if out.Matched? {
        return Ok(Decision(true, ReasonAllowed, out.path));
      }
      if run.excluded {
        return Ok(Decision(false, ReasonExcluded, []));
      }
    }
    var reached := ReachesAtAll(e, req, now);
    match reached
    case Err(error) => r := Err(WalkFailed(error));
    case Ok(true) => r := Ok(Decision(false, ReasonNoRule, []));
    case Ok(false) => r := Ok(Decision(false, ReasonUnreachable, []));
  }

  method ReachesAtAll(e: Evaluator, req: Request, now: int) returns (r: Result<bool, WalkError>)
    requires req.resource.typ in e.schema.types
    ensures r == ReachedBy(EnvOf(e, req.subject, now), req.resource, OtherActions(e.schema, req.resource.typ, req.action))
  {
    var actions := SortedOtherActions(e.schema, req.resource.typ, req.action);
    r := FirstReaching(EnvOf(e, req.subject, now), req.resource, actions);
  }

  method SortedOtherActions(schema: Schema, typ: string, action: string) returns (xs: seq<string>)
    ensures xs == OtherActions(schema, typ, action)
  {
    LessIsTotal();
    xs := SortSet(Less, schema.RuleNames(typ) - {action});
  }

  method FirstReaching(env: Env, resource: NodeRef, actions: seq<string>) returns (r: Result<bool, WalkError>)
    requires forall a :: a in actions ==> env.schema.HasRule(resource.typ, a)
    ensures r == ReachedBy(env, resource, actions)
  {
    for i := 0 to |actions|
      invariant ReachedBy(env, resource, actions[i..]) == ReachedBy(env, resource, actions)
    {
      assert actions[i] in actions;
      var run := new Run(env);
      var out := run.Satisfies(resource, env.schema.Rule(resource.typ, actions[i]), 0);
      assert actions[i..][1..] == actions[i + 1..];
      if out.Failed? {
        return Err(out.error);
      }
      if out.Matched? {
        return Ok(true);
      }
    }
    r := Ok(false);
  }
}
