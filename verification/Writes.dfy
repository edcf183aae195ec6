/**
 * What the write check promises, in terms of the edge, the schema and what Check
 * answers the granter (core/reach/delegate.go:28-168, core/reach/graph.go:43-54,
 * 111-127).
 */
module Writes {
  import opened Wrappers
  import opened Graph
  import opened Schemas
  import opened Sorting
  import opened Checks
  import opened Delegate
  import opened Validation
  import Text

  // ---- Edges that may be written at all ----

  /** The text holds something beside white space. */
  predicate Told(s: string) {
    exists i :: 0 <= i < |s| && !Text.IsSpace(s[i])
  }

  predicate SoundNode(n: NodeRef) {
    Told(n.typ) && Told(n.id) && n.typ != "*"
  }

  /** Both ends are sound, the relation is named, and no userset stands on a star node. */
  predicate SoundEdge(ed: Edge) {
    && SoundNode(ed.obj) && Told(ed.relation) && SoundNode(ed.subject.node)
    && !(ed.subject.relation != "" && ed.subject.node.id == "*")
  }

  /** The object's type carries the relation. */
  predicate Carried(schema: Schema, typ: string, rel: string) {
    rel in schema.relations && typ in schema.types && rel in schema.types[typ].relations
  }

  /** A star stands only at an end the relation opens to stars. */
  predicate StarsFit(def: RelationDef, ed: Edge) {
    && (ed.obj.id == "*" ==> def.wildcard == WildcardObject || def.wildcard == WildcardBoth)
    && (ed.subject.node.id == "*" ==> def.wildcard == WildcardSubject || def.wildcard == WildcardBoth)
  }

  /** The schema allows the edge: carried by the object's type, stars at open ends, a declared target. */
  predicate Legal(schema: Schema, ed: Edge) {
    && Carried(schema, ed.obj.typ, ed.relation)
    && StarsFit(schema.relations[ed.relation], ed)
    && TargetSpec(ed.subject.node.typ, ed.subject.relation) in schema.types[ed.obj.typ].relations[ed.relation]
  }

  lemma SoundIsValid(n: NodeRef)
    ensures n.Valid() <==> SoundNode(n)
  {
    assert forall s: string :: Text.Blank(s) <==> !Told(s);
  }

  lemma SoundEdgeIsValid(ed: Edge)
    ensures ed.Valid() <==> SoundEdge(ed)
  {
    SoundIsValid(ed.obj);
    SoundIsValid(ed.subject.node);
    assert Text.Blank(ed.relation) <==> !Told(ed.relation);
  }

  lemma LegalIsWritable(schema: Schema, ed: Edge)
    ensures Writable(schema, ed) <==> Legal(schema, ed)
  {
    if Carried(schema, ed.obj.typ, ed.relation) {
      var targets := schema.types[ed.obj.typ].relations[ed.relation];
      var spec := TargetSpec(ed.subject.node.typ, ed.subject.relation);
      assert TargetAllows(spec, ed.subject);
      assert forall target :: TargetAllows(target, ed.subject) ==> target == spec;
    }
  }

  // ---- What the granter must hold ----

  /** The relation occurs, outside subtracted sides, in the unfolding of the type's rule for the action. */
  ghost predicate Feeds(schema: Schema, typ: string, rel: string, action: string) {
    && typ in schema.types && action in schema.types[typ].rules
    && exists n: nat :: Occurs(schema.types[typ], n, schema.types[typ].rules[action], rel, {})
  }

  lemma FedIsFeeding(schema: Schema, typ: string, rel: string, a: string)
    ensures a in FedActions(schema, typ, rel) <==> Feeds(schema, typ, rel, a)
  {
    if typ in schema.types && a in schema.types[typ].rules {
      var t := schema.types[typ];
      if ExprFeeds(t, t.rules[a], rel, {}) {
        var n := FeedingOccurs(t, t.rules[a], rel, {});
      }
      if n: nat :| Occurs(t, n, t.rules[a], rel, {}) {
        OccurringFeeds(t, n, t.rules[a], rel, {});
      }
    }
  }

  /** The list the write check goes through: every fed action, in order. Holds with `&` and `-` too. */
  lemma FedActionsAreThose(schema: Schema, typ: string, rel: string)
    ensures forall a :: a in ActionsFed(schema, typ, rel) <==> Feeds(schema, typ, rel, a)
    ensures Ascending(Less, ActionsFed(schema, typ, rel))
  {
    var xs := ActionsFed(schema, typ, rel);
    LessIsTotal();
    forall a ensures a in xs <==> Feeds(schema, typ, rel, a) {
      assert a in xs <==> a in Elements(xs);
      FedIsFeeding(schema, typ, rel, a);
    }
  }

  /** Check allows the action. */
  ghost predicate Granted(e: Evaluator, granter: NodeRef, obj: NodeRef, action: string, now: int) {
    var r := CheckSpec(e, Request(granter, action, obj), now);
    r.Ok? && r.value.allowed
  }

  /** The first action of the list that is not allowed, and how it is reported. */
  ghost predicate Lacks(e: Evaluator, granter: NodeRef, obj: NodeRef, actions: seq<string>, now: int, error: WriteError) {
    exists i ::
      && 0 <= i < |actions| && (forall j :: 0 <= j < i ==> Granted(e, granter, obj, actions[j], now))
      && !Granted(e, granter, obj, actions[i], now) && Reported(e, granter, obj, actions[i], now, error)
  }

  ghost predicate Reported(e: Evaluator, granter: NodeRef, obj: NodeRef, action: string, now: int, error: WriteError) {
    match CheckSpec(e, Request(granter, action, obj), now)
    case Err(why) => error == GranterCheckFailed(why)
    case Ok(d) => error == Escalation(action, d.reason)
  }

  lemma {:induction false} FirstLackingIsFirst(e: Evaluator, granter: NodeRef, obj: NodeRef, actions: seq<string>, now: int)
    ensures var r := FirstLacking(e, granter, obj, actions, now);
            if r.None? then forall a :: a in actions ==> Granted(e, granter, obj, a, now)
            else Lacks(e, granter, obj, actions, now, r.value)
  {
    if actions != [] {
      var r := FirstLacking(e, granter, obj, actions, now);
      FirstLackingIsFirst(e, granter, obj, actions[1..], now);
      if Granted(e, granter, obj, actions[0], now) {
        assert forall a :: a in actions <==> a == actions[0] || a in actions[1..];
        if r.Some? {
          var i :| 0 <= i < |actions| - 1 && (forall j :: 0 <= j < i ==> Granted(e, granter, obj, actions[1..][j], now))
                   && !Granted(e, granter, obj, actions[1..][i], now) && Reported(e, granter, obj, actions[1..][i], now, r.value);
          assert actions[1..][i] == actions[i + 1];
          assert forall j :: 1 <= j < i + 1 ==> actions[j] == actions[1..][j - 1];
        }
      } else {
        assert Reported(e, granter, obj, actions[0], now, r.value);
      }
    }
  }

  // ---- The write check ----

  lemma AcceptedBySteps(e: Evaluator, granter: NodeRef, p: Edge, now: int)
    ensures CanWriteSpec(e, granter, p, CarveNone, now).None? <==>
            && p.Valid() && Writable(e.schema, p) && granter.Valid()
            && FirstLacking(e, granter, p.obj, ActionsFed(e.schema, p.obj.typ, p.relation), now).None?
  {
  }

  /** The loop finds nothing lacking exactly when every fed action is allowed. */
  lemma NothingLacking(e: Evaluator, granter: NodeRef, typ: string, rel: string, obj: NodeRef, now: int)
    ensures FirstLacking(e, granter, obj, ActionsFed(e.schema, typ, rel), now).None? <==>
            forall a :: Feeds(e.schema, typ, rel, a) ==> Granted(e, granter, obj, a, now)
  {
    var actions := ActionsFed(e.schema, typ, rel);
    FedActionsAreThose(e.schema, typ, rel);
    FirstLackingIsFirst(e, granter, obj, actions, now);
  }

  /**
   * An ordinary write is accepted exactly when the edge is sound and legal, the
   * granter is sound, and Check allows the granter every action the relation feeds
   * on the object. Holds for every schema.
   */
  lemma AcceptedIff(e: Evaluator, granter: NodeRef, p: Edge, now: int)
    ensures CanWriteSpec(e, granter, p, CarveNone, now).None? <==>
            && SoundEdge(p) && Legal(e.schema, p) && SoundNode(granter)
            && forall a :: Feeds(e.schema, p.obj.typ, p.relation, a) ==> Granted(e, granter, p.obj, a, now)
  {
    SoundEdgeIsValid(p);
    LegalIsWritable(e.schema, p);
    SoundIsValid(granter);
    AcceptedBySteps(e, granter, p, now);
    NothingLacking(e, granter, p.obj.typ, p.relation, p.obj, now);
  }

  /** The root of trust writes every sound and legal edge, and an unknown carve-out none. */
  lemma CarveOutcomes(e: Evaluator, granter: NodeRef, p: Edge, name: string, now: int)
    ensures CanWriteSpec(e, granter, p, CarveRootOfTrust, now).None? <==> SoundEdge(p) && Legal(e.schema, p)
    ensures CanWriteSpec(e, granter, p, CarveOther(name), now).Some?
    ensures CanWriteSpec(e, granter, p, CarveOther(name), now) == Some(UnknownCarve) <==> SoundEdge(p) && Legal(e.schema, p)
  {
    SoundEdgeIsValid(p);
    LegalIsWritable(e.schema, p);
  }

  /** Each refusal is given in exactly one case, in this order of precedence. */
  lemma RefusedFor(e: Evaluator, granter: NodeRef, p: Edge, now: int)
    ensures var r := CanWriteSpec(e, granter, p, CarveNone, now);
            var known := SoundEdge(p) && p.relation in e.schema.relations;
            var carried := SoundEdge(p) && Carried(e.schema, p.obj.typ, p.relation);
            && (r == Some(InvalidEdge) <==> !SoundEdge(p))
            && (r == Some(UndeclaredRelation) <==> SoundEdge(p) && p.relation !in e.schema.relations)
            && (r == Some(UnknownObjectType) <==> known && p.obj.typ !in e.schema.types)
            && (r == Some(RelationNotCarried) <==> known && p.obj.typ in e.schema.types && p.relation !in e.schema.types[p.obj.typ].relations)
            && (r == Some(WildcardObjectRefused) || r == Some(WildcardSubjectRefused) <==> carried && !StarsFit(e.schema.relations[p.relation], p))
            && (r == Some(WildcardObjectRefused) ==> p.obj.id == "*")
            && (r == Some(WildcardSubjectRefused) ==> p.subject.node.id == "*")
            && (r == Some(IllegalTarget) <==> carried && StarsFit(e.schema.relations[p.relation], p) && !Legal(e.schema, p))
            && (r == Some(InvalidGranter) <==> SoundEdge(p) && Legal(e.schema, p) && !SoundNode(granter))
            && (r.Some? && SoundEdge(p) && Legal(e.schema, p) && SoundNode(granter) ==>
                  Lacks(e, granter, p.obj, ActionsFed(e.schema, p.obj.typ, p.relation), now, r.value))
  {
    var actions := ActionsFed(e.schema, p.obj.typ, p.relation);
    SoundEdgeIsValid(p);
    LegalIsWritable(e.schema, p);
    SoundIsValid(granter);
    FirstLackingIsFirst(e, granter, p.obj, actions, now);
  }

  // ---- Requests Check refuses ----

  /** A request is refused for its subject, resource, action or resource type, in that order, and then only by the walk. */
  lemma RequestRefusedFor(e: Evaluator, req: Request, now: int)
    ensures var r := CheckSpec(e, req, now);
            var nodes := SoundNode(req.subject) && SoundNode(req.resource);
            && (r == Err(InvalidSubject) <==> !SoundNode(req.subject))
            && (r == Err(InvalidResource) <==> SoundNode(req.subject) && !SoundNode(req.resource))
            && (r == Err(UnknownAction) <==> nodes && req.action !in e.schema.actions)
            && (r == Err(UnknownType) <==> nodes && req.action in e.schema.actions && req.resource.typ !in e.schema.types)
  {
    SoundIsValid(req.subject);
    SoundIsValid(req.resource);
  }
}
