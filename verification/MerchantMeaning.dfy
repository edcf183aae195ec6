/**
 * What a generated merchant schema means: a grant held on a container, directly,
 * through groups and roles or through a star at either end, covers everything
 * nested in it (internal/accessmodel/merchant.go:180-231).
 */
module MerchantMeaning {
  import opened Wrappers
  import opened Graph
  import opened Schemas
  import opened Walk
  import opened Semantics
  import opened Exactness
  import opened Checks
  import opened CheckTheorems
  import opened Delegate
  import opened Delegation
  import opened Merchant
  import Sorting

  /** The schema the vocabulary stands for, under whatever namespace. */
  ghost predicate StandsFor(schema: Schema, v: Vocabulary) {
    schema == SchemaOf(v).(namespace := schema.namespace)
  }

  /** A merchant's namespace in use: its generated schema over writable edges. */
  ghost predicate InUse(v: Vocabulary, e: Evaluator) {
    GoodVocabulary(v) && StandsFor(e.schema, v) && WritableStore(e)
  }

  // ---- Membership, roles and grants, said in edges ----

  /** An active edge of the node under the relation. */
  predicate Active(env: Env, node: NodeRef, rel: string, ed: Edge) {
    ed in env.edges(node, rel) && ed.Active(env.now)
  }

  /** The caller is a member of the group, through at most k groups nested in it. */
  ghost predicate InGroup(env: Env, k: nat, group: NodeRef) {
    exists ed :: Active(env, group, "member_of", ed) &&
      (ed.subject == SubjectRef(env.subject, "") || (k > 0 && ed.subject.relation == "member_of" && InGroup(env, k - 1, ed.subject.node)))
  }

  ghost predicate MemberOf(env: Env, group: NodeRef) {
    exists k: nat :: InGroup(env, k, group)
  }

  ghost predicate HoldsRole(env: Env, role: NodeRef) {
    exists ed :: Active(env, role, "holder", ed) &&
      (ed.subject == SubjectRef(env.subject, "") || (ed.subject.relation == "member_of" && MemberOf(env, ed.subject.node)))
  }

  /** The grantee covers the caller: itself, everyone of its type, a group or a role. */
  ghost predicate Covers(env: Env, grantee: SubjectRef) {
    || grantee == SubjectRef(env.subject, "")
    || grantee == SubjectRef(Star(env.subject.typ), "")
    || (grantee.relation == "member_of" && MemberOf(env, grantee.node))
    || (grantee.relation == "holder" && HoldsRole(env, grantee.node))
  }

  /** A grant under the relation written on the node or on its type's star covers the caller. */
  ghost predicate Granted(env: Env, node: NodeRef, rel: string) {
    exists ed :: (Active(env, node, rel, ed) || Active(env, Star(node.typ), rel, ed)) && Covers(env, ed.subject)
  }

  ghost predicate HoldsGrant(env: Env, node: NodeRef, action: string) {
    Granted(env, node, Can(action)) || Granted(env, node, CAN_ALL)
  }

  ghost predicate Owns(env: Env, node: NodeRef) {
    exists ed :: Active(env, node, "owner", ed) && ed.subject == SubjectRef(env.subject, "")
  }

  /** The caller holds the action, or every action, on the node or on a container above it. */
  ghost predicate CoveredAbove(env: Env, node: NodeRef, action: string) {
    exists k: nat, container :: Up(env, k, node, container) && HoldsGrant(env, container, action)
  }

  /** The container is reached from the node by n active parent edges. */
  ghost predicate Up(env: Env, n: nat, node: NodeRef, container: NodeRef) {
    if n == 0 then container == node
    else exists ed :: Active(env, node, "parent", ed) && Up(env, n - 1, ed.subject.node, container)
  }

  // ---- What writable edges look like under each generated relation ----

  predicate MemberRef(subject: SubjectRef) {
    (subject.relation == "" && subject.node.typ == "app_user" && !subject.node.IsWildcard()) || subject.relation == "member_of"
  }

  predicate IsGroup(node: NodeRef) {
    node.typ == "group"
  }

  ghost predicate GroupEdges(env: Env) {
    && "member_of" in env.schema.relations && env.schema.relations["member_of"] == RelationDef("member_of", true, WildcardNone)
    && forall node: NodeRef, ed :: ed in env.edges(node, "member_of") ==> MemberEdgeShape(node, ed)
  }

  predicate MemberEdgeShape(node: NodeRef, ed: Edge) {
    IsGroup(node) && MemberRef(ed.subject)
  }

  ghost predicate RoleEdges(env: Env) {
    && "holder" in env.schema.relations && env.schema.relations["holder"] == RelationDef("holder", false, WildcardNone)
    && forall node: NodeRef, ed :: ed in env.edges(node, "holder") ==> MemberRef(ed.subject)
  }

  ghost predicate OwnerEdges(env: Env) {
    && "owner" in env.schema.relations && env.schema.relations["owner"] == RelationDef("owner", false, WildcardNone)
    && forall node: NodeRef, ed :: ed in env.edges(node, "owner") ==> ed.subject.relation == "" && !ed.subject.node.IsWildcard()
  }

  ghost predicate GrantEdges(env: Env, rel: string) {
    && rel in env.schema.relations && env.schema.relations[rel] == RelationDef(rel, false, WildcardBoth)
    && forall node: NodeRef, ed :: ed in env.edges(node, rel) ==> ed.subject.relation == "" || ed.subject.relation == "member_of" || ed.subject.relation == "holder"
  }

  ghost predicate ParentEdges(v: Vocabulary, env: Env) {
    && "parent" in env.schema.relations && env.schema.relations["parent"] == RelationDef("parent", false, WildcardNone)
    && forall node: NodeRef, ed :: ed in env.edges(node, "parent") ==> ed.subject.node.typ in v.scopes
  }

  /** What the schema declares of one relation, and of it on one type. */
  lemma DeclaredAs(v: Vocabulary, typ: string, rel: string)
    requires typ in SchemaOf(v).types && rel in SchemaOf(v).types[typ].relations
    ensures rel in Carried(v, typ) && SchemaOf(v).types[typ].relations[rel] == TargetsOf(v, rel)
  {
  }

  lemma DefinedAs(v: Vocabulary, rel: string)
    requires rel in SchemaOf(v).relations
    ensures rel in RelationNames(v) && SchemaOf(v).relations[rel] == RelationDefOf(rel)
  {
  }

  /** The subject fits some target of the relation. */
  predicate Targeted(specs: seq<TargetSpec>, subject: SubjectRef) {
    exists i :: 0 <= i < |specs| && TargetAllows(specs[i], subject)
  }

  /** What the schema forces on an edge of the store. */
  lemma EdgeShape(v: Vocabulary, e: Evaluator, node: NodeRef, rel: string, ed: Edge)
    requires InUse(v, e) && ed in e.edges(node, rel)
    ensures rel in RelationNames(v) && rel in Carried(v, node.typ)
    ensures Targeted(TargetsOf(v, rel), ed.subject)
    ensures ed.subject.node.IsWildcard() ==> IsGrant(rel)
  {
    StoreShape(e, node, rel, ed);
    DefinedAs(v, rel);
    DeclaredAs(v, node.typ, rel);
  }

  lemma StoreShape(e: Evaluator, node: NodeRef, rel: string, ed: Edge)
    requires WritableStore(e) && ed in e.edges(node, rel)
    ensures rel in e.schema.relations && node.typ in e.schema.types && rel in e.schema.types[node.typ].relations
    ensures Targeted(e.schema.types[node.typ].relations[rel], ed.subject)
    ensures ed.subject.node.IsWildcard() ==> e.schema.relations[rel].wildcard.AllowsSubject()
  {
    assert ed.obj == node && ed.relation == rel && Writable(e.schema, ed);
  }

  lemma NotGrants()
    ensures !IsGrant("member_of") && !IsGrant("holder") && !IsGrant("owner") && !IsGrant("parent")
    ensures forall rel :: IsGrant(rel) ==> rel != "parent" && rel != "owner" && rel != "member_of" && rel != "holder"
  {
    assert "member_of"[..4][0] == 'm' && "holder"[..4][0] == 'h' && "owner"[..4][0] == 'o' && "parent"[..4][0] == 'p';
    assert "can_"[0] == 'c';
  }

  /** Only groups carry membership. */
  lemma OnlyGroups(v: Vocabulary, node: NodeRef)
    ensures "member_of" in Carried(v, node.typ) ==> IsGroup(node)
  {
    forall a: string ensures Can(a)[0] == 'c' {
    }
  }

  lemma MemberTargets(v: Vocabulary, rel: string, subject: SubjectRef)
    requires !IsGrant(rel) && rel != "parent" && rel != "owner"
    requires Targeted(TargetsOf(v, rel), subject)
    requires !subject.node.IsWildcard()
    ensures MemberRef(subject)
  {
  }

  lemma MemberEdge(v: Vocabulary, e: Evaluator, node: NodeRef, rel: string, ed: Edge)
    requires InUse(v, e) && ed in e.edges(node, rel)
    requires rel == "member_of" || rel == "holder"
    ensures MemberRef(ed.subject)
    ensures rel == "member_of" ==> IsGroup(node)
  {
    NotGrants();
    EdgeShape(v, e, node, rel, ed);
    OnlyGroups(v, node);
    MemberTargets(v, rel, ed.subject);
  }

  /** How the two structural relations are defined. */
  lemma StructuralDefs(v: Vocabulary)
    ensures "member_of" in SchemaOf(v).relations && SchemaOf(v).relations["member_of"] == RelationDef("member_of", true, WildcardNone)
    ensures "holder" in SchemaOf(v).relations && SchemaOf(v).relations["holder"] == RelationDef("holder", false, WildcardNone)
  {
    NotGrants();
    assert "member_of" in RelationNames(v) && "holder" in RelationNames(v);
    assert RelationDefOf("holder") == RelationDef("holder", false, WildcardNone);
  }

  lemma OnlyMembers(v: Vocabulary, e: Evaluator)
    requires InUse(v, e)
    ensures forall node: NodeRef, ed :: ed in e.edges(node, "member_of") ==> MemberEdgeShape(node, ed)
    ensures forall node: NodeRef, ed :: ed in e.edges(node, "holder") ==> MemberRef(ed.subject)
  {
    forall node: NodeRef, ed | ed in e.edges(node, "member_of") ensures MemberEdgeShape(node, ed) {
      MemberEdge(v, e, node, "member_of", ed);
    }
    forall node: NodeRef, ed | ed in e.edges(node, "holder") ensures MemberRef(ed.subject) {
      MemberEdge(v, e, node, "holder", ed);
    }
  }

  lemma GroupShape(v: Vocabulary, e: Evaluator, s: NodeRef, now: int)
    requires InUse(v, e)
    ensures GroupEdges(EnvOf(e, s, now))
  {
    StructuralDefs(v);
    OnlyMembers(v, e);
  }

  lemma RoleShape(v: Vocabulary, e: Evaluator, s: NodeRef, now: int)
    requires InUse(v, e)
    ensures RoleEdges(EnvOf(e, s, now))
  {
    StructuralDefs(v);
    OnlyMembers(v, e);
  }

  lemma GrantShape(v: Vocabulary, e: Evaluator, s: NodeRef, now: int, rel: string)
    requires InUse(v, e) && rel in RelationNames(v) && IsGrant(rel)
    ensures GrantEdges(EnvOf(e, s, now), rel)
  {
    NotGrants();
    forall node: NodeRef, ed | ed in e.edges(node, rel)
      ensures ed.subject.relation == "" || ed.subject.relation == "member_of" || ed.subject.relation == "holder"
    {
      EdgeShape(v, e, node, rel, ed);
    }
  }

  lemma OwnerShape(v: Vocabulary, e: Evaluator, s: NodeRef, now: int)
    requires InUse(v, e) && "owner" in RelationNames(v)
    ensures OwnerEdges(EnvOf(e, s, now))
  {
    NotGrants();
    forall node: NodeRef, ed | ed in e.edges(node, "owner") ensures ed.subject.relation == "" && !ed.subject.node.IsWildcard() {
      EdgeShape(v, e, node, "owner", ed);
    }
  }

  lemma ParentShape(v: Vocabulary, e: Evaluator, s: NodeRef, now: int)
    requires InUse(v, e) && "parent" in RelationNames(v)
    ensures ParentEdges(v, EnvOf(e, s, now))
  {
    NotGrants();
    forall node: NodeRef, ed | ed in e.edges(node, "parent") ensures ed.subject.node.typ in v.scopes {
      EdgeShape(v, e, node, "parent", ed);
    }
  }

  // ---- The generated relations mean just that ----

  ghost predicate GoalMet(env: Env, goal: Goal) {
    goal.Here? || (goal.Ask? && Derivable(env, goal.node, goal.term))
  }

  /** A relation term is derivable exactly when a live edge's goal is. */
  lemma TermByEdge(env: Env, node: NodeRef, term: Expr)
    requires term.RelationTerm? || term.ArrowTerm?
    ensures Derivable(env, node, term) <==> exists ed :: Live(env, node, term, ed) && GoalMet(env, GoalOf(env, term, ed))
  {
    if Derivable(env, node, term) {
      var n: nat :| Derives(env, n, node, term);
      var ed :| Live(env, node, term, ed) && GoalDerives(env, n - 1, GoalOf(env, term, ed));
      var g := GoalOf(env, term, ed);
      if g.Ask? {
        assert Derives(env, n - 1, g.node, g.term);
      }
      assert GoalMet(env, g);
    }
    if ed :| Live(env, node, term, ed) && GoalMet(env, GoalOf(env, term, ed)) {
      DerivableByEdge(env, node, term, ed);
    }
  }

  lemma {:induction false} GroupDerives(env: Env, n: nat, group: NodeRef)
    requires GroupEdges(env)
    requires Derives(env, n, group, RelationTerm("member_of"))
    ensures InGroup(env, n, group) && IsGroup(group)
    decreases n
  {
    var term := RelationTerm("member_of");
    var ed :| Live(env, group, term, ed) && GoalDerives(env, n - 1, GoalOf(env, term, ed));
    assert Active(env, group, "member_of", ed);
    if ed.subject != SubjectRef(env.subject, "") {
      GroupDerives(env, n - 1, ed.subject.node);
    }
  }

  lemma {:induction false} GroupDerivable(env: Env, k: nat, group: NodeRef)
    requires GroupEdges(env)
    requires InGroup(env, k, group)
    ensures Derivable(env, group, RelationTerm("member_of"))
    decreases k
  {
    var term := RelationTerm("member_of");
    var ed :| Active(env, group, "member_of", ed) &&
      (ed.subject == SubjectRef(env.subject, "") || (k > 0 && ed.subject.relation == "member_of" && InGroup(env, k - 1, ed.subject.node)));
    if ed.subject != SubjectRef(env.subject, "") {
      GroupDerivable(env, k - 1, ed.subject.node);
    }
    DerivableByEdge(env, group, term, ed);
  }

  lemma GroupMeans(env: Env, group: NodeRef)
    requires GroupEdges(env)
    ensures Derivable(env, group, RelationTerm("member_of")) <==> MemberOf(env, group)
  {
    if Derivable(env, group, RelationTerm("member_of")) {
      var n: nat :| Derives(env, n, group, RelationTerm("member_of"));
      GroupDerives(env, n, group);
    }
    if MemberOf(env, group) {
      var k: nat :| InGroup(env, k, group);
      GroupDerivable(env, k, group);
    }
  }

  ghost predicate RoleEdgeCovers(env: Env, ed: Edge) {
    ed.subject == SubjectRef(env.subject, "") || (ed.subject.relation == "member_of" && MemberOf(env, ed.subject.node))
  }

  lemma RoleMeans(env: Env, role: NodeRef)
    requires GroupEdges(env) && RoleEdges(env)
    ensures Derivable(env, role, RelationTerm("holder")) <==> HoldsRole(env, role)
  {
    var term := RelationTerm("holder");
    TermByEdge(env, role, term);
    forall ed ensures Live(env, role, term, ed) && GoalMet(env, GoalOf(env, term, ed)) <==> Active(env, role, "holder", ed) && RoleEdgeCovers(env, ed) {
      GroupMeans(env, ed.subject.node);
    }
  }

  /** A grant relation holds exactly when some grant on the node or its star covers the caller. */
  lemma GrantMeans(env: Env, node: NodeRef, rel: string)
    requires GroupEdges(env) && RoleEdges(env) && GrantEdges(env, rel)
    ensures Derivable(env, node, RelationTerm(rel)) <==> Granted(env, node, rel)
  {
    var term := RelationTerm(rel);
    TermByEdge(env, node, term);
    forall ed ensures Live(env, node, term, ed) && GoalMet(env, GoalOf(env, term, ed)) <==>
                      (Active(env, node, rel, ed) || Active(env, Star(node.typ), rel, ed)) && Covers(env, ed.subject)
    {
      GrantEdgeMeans(env, node, rel, ed);
    }
  }

  lemma GrantEdgeMeans(env: Env, node: NodeRef, rel: string, ed: Edge)
    requires GroupEdges(env) && RoleEdges(env) && GrantEdges(env, rel)
    ensures Live(env, node, RelationTerm(rel), ed) <==> Active(env, node, rel, ed) || Active(env, Star(node.typ), rel, ed)
    ensures Live(env, node, RelationTerm(rel), ed) ==> (GoalMet(env, GoalOf(env, RelationTerm(rel), ed)) <==> Covers(env, ed.subject))
  {
    assert node.IsWildcard() ==> node == Star(node.typ);
    assert ed.subject.node.IsWildcard() ==> ed.subject.node == Star(ed.subject.node.typ);
    GroupMeans(env, ed.subject.node);
    RoleMeans(env, ed.subject.node);
  }

  lemma OwnerMeans(env: Env, node: NodeRef)
    requires OwnerEdges(env)
    ensures Derivable(env, node, RelationTerm("owner")) <==> Owns(env, node)
  {
    var term := RelationTerm("owner");
    TermByEdge(env, node, term);
    forall ed ensures Live(env, node, term, ed) && GoalMet(env, GoalOf(env, term, ed)) <==> Active(env, node, "owner", ed) && ed.subject == SubjectRef(env.subject, "") {
    }
  }

  // ---- Rules ----

  lemma MerchantSchemaIsAdditive(v: Vocabulary, schema: Schema)
    requires StandsFor(schema, v)
    ensures Additive(schema)
  {
    forall typ, a | schema.HasRule(typ, a) ensures AdditiveExpr(EVERY_ACTION, schema.Rule(typ, a)) {
      assert schema.Rule(typ, a) == RuleOf(v, typ, a);
      BodyIsAdditive(a, typ !in v.scopes, if typ in v.scopes then |v.scopes| > 1 else |v.scopes| > 0);
    }
  }

  lemma BodyIsAdditive(a: string, owned: bool, nested: bool)
    ensures AdditiveExpr(EVERY_ACTION, RuleBody(a, owned, nested))
  {
  }

  /** What a rule of the schema says. */
  lemma RuleSays(v: Vocabulary, e: Evaluator, typ: string, a: string)
    requires InUse(v, e)
    ensures e.schema.HasRule(typ, a) <==> a in Answered(v, typ)
    ensures a in Answered(v, typ) ==> e.schema.Rule(typ, a) == RuleOf(v, typ, a)
  {
  }

  lemma GrantsDeclared(v: Vocabulary, typ: string, a: string)
    requires a in Answered(v, typ)
    ensures Can(a) in RelationNames(v) && CAN_ALL in RelationNames(v) && IsGrant(Can(a)) && IsGrant(CAN_ALL)
  {
    CanIdent(a);
    AnsweredAreActions(v, typ, a);
    assert Can(a) in GrantNames(ActionsOf(v));
    assert CAN_ALL[..4] == "can_";
  }

  /** The grant terms of an action mean holding the grant. */
  lemma GrantTermsMean(v: Vocabulary, e: Evaluator, s: NodeRef, now: int, typ: string, a: string, node: NodeRef)
    requires InUse(v, e) && a in Answered(v, typ)
    ensures var env := EnvOf(e, s, now);
            HoldsGrant(env, node, a) <==> Derivable(env, node, RelationTerm(Can(a))) || Derivable(env, node, RelationTerm(CAN_ALL))
  {
    GrantsDeclared(v, typ, a);
    GroupShape(v, e, s, now);
    RoleShape(v, e, s, now);
    GrantShape(v, e, s, now, Can(a));
    GrantShape(v, e, s, now, CAN_ALL);
    GrantMeans(EnvOf(e, s, now), node, Can(a));
    GrantMeans(EnvOf(e, s, now), node, CAN_ALL);
  }

  /** A grant on the node itself allows its actions. */
  lemma GrantAllows(v: Vocabulary, e: Evaluator, s: NodeRef, now: int, node: NodeRef, a: string)
    requires InUse(v, e) && a in Answered(v, node.typ)
    requires HoldsGrant(EnvOf(e, s, now), node, a)
    ensures May(EnvOf(e, s, now), node, a)
  {
    GrantTermsMean(v, e, s, now, node.typ, a, node);
    RuleSays(v, e, node.typ, a);
    var terms := RuleOf(v, node.typ, a).terms;
    assert terms[0] == RelationTerm(Can(a)) && terms[1] == RelationTerm(CAN_ALL);
    TermAllows(e, s, now, node, a, if Derivable(EnvOf(e, s, now), node, terms[0]) then terms[0] else terms[1]);
  }

  lemma TermAllows(e: Evaluator, s: NodeRef, now: int, node: NodeRef, a: string, term: Expr)
    requires e.schema.HasRule(node.typ, a) && e.schema.Rule(node.typ, a).Union? && term in e.schema.Rule(node.typ, a).terms
    requires Derivable(EnvOf(e, s, now), node, term)
    ensures May(EnvOf(e, s, now), node, a)
  {
    PartOfUnion(EnvOf(e, s, now), node, e.schema.Rule(node.typ, a), term);
    MayIsRuleDerivable(EnvOf(e, s, now), node, a);
  }

  /** A parent edge leads to a scope kind, which answers every action by its rule. */
  lemma ParentAnswers(v: Vocabulary, e: Evaluator, s: NodeRef, now: int, node: NodeRef, a: string, ed: Edge)
    requires InUse(v, e) && a in Answered(v, node.typ)
    requires ed in e.edges(node, "parent")
    ensures ParentEdges(v, EnvOf(e, s, now)) && "parent" in Carried(v, node.typ)
    ensures ed.subject.node.typ in v.scopes && a in Answered(v, ed.subject.node.typ)
    ensures FarTerm(EnvOf(e, s, now), ed.subject.node.typ, a) == RuleTerm(a)
  {
    EdgeShape(v, e, node, "parent", ed);
    ParentShape(v, e, s, now);
    AnsweredAreActions(v, node.typ, a);
    RuleSays(v, e, ed.subject.node.typ, a);
  }

  /** Crossing one parent edge. */
  lemma ParentAllows(v: Vocabulary, e: Evaluator, s: NodeRef, now: int, node: NodeRef, a: string, ed: Edge)
    requires InUse(v, e) && a in Answered(v, node.typ)
    requires Active(EnvOf(e, s, now), node, "parent", ed)
    ensures a in Answered(v, ed.subject.node.typ)
    ensures May(EnvOf(e, s, now), ed.subject.node, a) ==> May(EnvOf(e, s, now), node, a)
  {
    var arrow := ArrowTerm("parent", a);
    ParentAnswers(v, e, s, now, node, a, ed);
    if May(EnvOf(e, s, now), ed.subject.node, a) {
      DerivableByEdge(EnvOf(e, s, now), node, arrow, ed);
      NestedHasArrow(v, node.typ, a);
      RuleSays(v, e, node.typ, a);
      TermAllows(e, s, now, node, a, arrow);
    }
  }

  lemma FirstParent(env: Env, n: nat, node: NodeRef, container: NodeRef) returns (ed: Edge)
    requires n > 0 && Up(env, n, node, container)
    ensures Active(env, node, "parent", ed) && Up(env, n - 1, ed.subject.node, container)
  {
    ed :| Active(env, node, "parent", ed) && Up(env, n - 1, ed.subject.node, container);
  }

  /** A grant on a container allows the action on everything nested in it. */
  lemma {:induction false} ContainerAllows(v: Vocabulary, e: Evaluator, s: NodeRef, now: int, n: nat, node: NodeRef, container: NodeRef, a: string)
    requires InUse(v, e) && a in Answered(v, node.typ)
    requires Up(EnvOf(e, s, now), n, node, container) && HoldsGrant(EnvOf(e, s, now), container, a)
    ensures May(EnvOf(e, s, now), node, a)
    decreases n
  {
    if n == 0 {
      GrantAllows(v, e, s, now, node, a);
    } else {
      var ed := FirstParent(EnvOf(e, s, now), n, node, container);
      ParentAllows(v, e, s, now, node, a, ed);
      ContainerAllows(v, e, s, now, n - 1, ed.subject.node, container, a);
    }
  }

  /** A type that carries parent has the arrow in each of its rules. */
  lemma NestedHasArrow(v: Vocabulary, typ: string, a: string)
    requires a in Answered(v, typ) && "parent" in Carried(v, typ)
    ensures ArrowTerm("parent", a) in RuleOf(v, typ, a).terms
  {
    forall b: string ensures Can(b)[0] == 'c' {
    }
    var terms := RuleOf(v, typ, a).terms;
    assert terms[|terms| - 1] == ArrowTerm("parent", a);
  }

  /** The terms a rule can have. */
  lemma BodyTerms(v: Vocabulary, typ: string, a: string, term: Expr)
    requires a in Answered(v, typ) && term in RuleOf(v, typ, a).terms
    ensures || term == RelationTerm(Can(a)) || term == RelationTerm(CAN_ALL)
            || (term == RelationTerm("owner") && typ !in v.scopes && "owner" in RelationNames(v))
            || (term == ArrowTerm("parent", a) && "parent" in RelationNames(v))
  {
    AnsweredAreActions(v, typ, a);
    if typ !in v.scopes {
      assert typ in ResourceTypes(v);
    }
  }

  /** A live parent edge of an allowed arrow, and the action allowed at its far end. */
  lemma ArrowAllowedBy(v: Vocabulary, e: Evaluator, s: NodeRef, now: int, n: nat, node: NodeRef, a: string) returns (ed: Edge)
    requires InUse(v, e) && a in Answered(v, node.typ) && "parent" in RelationNames(v)
    requires Derives(EnvOf(e, s, now), n, node, ArrowTerm("parent", a))
    ensures Active(EnvOf(e, s, now), node, "parent", ed)
    ensures ed.subject.node.typ in v.scopes
    ensures n > 0 && Derives(EnvOf(e, s, now), n - 1, ed.subject.node, RuleTerm(a))
  {
    var env, term := EnvOf(e, s, now), ArrowTerm("parent", a);
    ed :| Live(env, node, term, ed) && GoalDerives(env, n - 1, GoalOf(env, term, ed));
    ParentShape(v, e, s, now);
    assert Active(env, node, "parent", ed);
    ParentAnswers(v, e, s, now, node, a, ed);
  }

  /** Nothing else allows an action. */
  lemma {:induction false} AllowedByContainer(v: Vocabulary, e: Evaluator, s: NodeRef, now: int, n: nat, node: NodeRef, a: string)
    requires InUse(v, e)
    requires Derives(EnvOf(e, s, now), n, node, RuleTerm(a))
    ensures a in Answered(v, node.typ)
    ensures var env := EnvOf(e, s, now);
            (node.typ !in v.scopes && Owns(env, node)) || CoveredAbove(env, node, a)
    decreases n
  {
    var env := EnvOf(e, s, now);
    RuleSays(v, e, node.typ, a);
    var term :| term in RuleOf(v, node.typ, a).terms && Derives(env, n - 1, node, term);
    BodyTerms(v, node.typ, a, term);
    if term.ArrowTerm? {
      var ed := ArrowAllowedBy(v, e, s, now, n - 1, node, a);
      AllowedByContainer(v, e, s, now, n - 2, ed.subject.node, a);
      var k: nat, container :| Up(env, k, ed.subject.node, container) && HoldsGrant(env, container, a);
      assert Up(env, k + 1, node, container);
    } else if term == RelationTerm("owner") {
      OwnerShape(v, e, s, now);
      OwnerMeans(env, node);
    } else {
      GrantTermsMean(v, e, s, now, node.typ, a, node);
      assert Up(env, 0, node, node);
    }
  }

  /** Who may do what under a generated schema, in edges alone. */
  ghost predicate Entitled(v: Vocabulary, env: Env, node: NodeRef, a: string) {
    && a in Answered(v, node.typ)
    && (|| (node.typ !in v.scopes && Owns(env, node))
        || CoveredAbove(env, node, a))
  }

  /**
   * A generated schema allows an action exactly to those who own the resource or
   * hold the action, or every action, on it or on a container any number of
   * parent edges above it.
   */
  lemma MerchantRulesMean(v: Vocabulary, e: Evaluator, s: NodeRef, now: int, node: NodeRef, a: string)
    requires InUse(v, e)
    ensures May(EnvOf(e, s, now), node, a) <==> Entitled(v, EnvOf(e, s, now), node, a)
  {
    var env := EnvOf(e, s, now);
    if May(env, node, a) {
      var n: nat :| Derives(env, n, node, RuleTerm(a));
      AllowedByContainer(v, e, s, now, n, node, a);
    }
    if Entitled(v, env, node, a) {
      if k: nat, container :| Up(env, k, node, container) && HoldsGrant(env, container, a) {
        ContainerAllows(v, e, s, now, k, node, container, a);
      } else {
        OwnerAllows(v, e, s, now, node, a);
      }
    }
  }

  lemma OwnerAllows(v: Vocabulary, e: Evaluator, s: NodeRef, now: int, node: NodeRef, a: string)
    requires InUse(v, e) && a in Answered(v, node.typ) && node.typ !in v.scopes
    requires Owns(EnvOf(e, s, now), node)
    ensures May(EnvOf(e, s, now), node, a)
  {
    var term := RuleOf(v, node.typ, a).terms[2];
    assert term == RelationTerm("owner");
    RuleSays(v, e, node.typ, a);
    BodyTerms(v, node.typ, a, term);
    OwnerShape(v, e, s, now);
    OwnerMeans(EnvOf(e, s, now), node);
    TermAllows(e, s, now, node, a, term);
  }

  /** The same in the answers of Check. */
  lemma MerchantCheckMeans(v: Vocabulary, e: Evaluator, req: Request, now: int)
    requires InUse(v, e) && CheckSpec(e, req, now).Ok?
    ensures CheckSpec(e, req, now).value.allowed <==> Entitled(v, EnvOf(e, req.subject, now), req.resource, req.action)
  {
    MerchantSchemaIsAdditive(v, e.schema);
    CheckDecidesReachability(e, req, now);
    MerchantRulesMean(v, e, req.subject, now, req.resource, req.action);
  }

  // ---- Delegation under a generated schema ----

  lemma TargetRelations(v: Vocabulary, rel: string, spec: TargetSpec)
    requires spec in TargetsOf(v, rel)
    ensures spec.relation == "" || spec.relation == "member_of" || spec.relation == "holder"
  {
  }

  lemma ScopesHaveRules(v: Vocabulary, schema: Schema, typ: string, a: string, spec: TargetSpec)
    requires StandsFor(schema, v) && a in ActionsOf(v)
    requires typ in schema.types && "parent" in schema.types[typ].relations && spec in schema.types[typ].relations["parent"]
    ensures schema.HasRule(spec.typ, a)
  {
    DeclaredAs(v, typ, "parent");
    assert spec in Parents(v) && spec.typ in v.scopes;
    SchemaSays(v);
  }

  lemma BodyIsNearSide(schema: Schema, typ: string, a: string, owned: bool, nested: bool, rel: string)
    requires forall spec :: typ in schema.types && "parent" in schema.types[typ].relations && spec in schema.types[typ].relations["parent"] ==>
      schema.HasRule(spec.typ, a)
    ensures NearSideOnly(schema, typ, RuleBody(a, owned, nested), rel)
  {
    assert NearSideOnly(schema, typ, ArrowTerm("parent", a), rel);
  }

  lemma MerchantRuleIsNearSide(v: Vocabulary, schema: Schema, typ: string, a: string, rel: string)
    requires StandsFor(schema, v) && a in Answered(v, typ)
    ensures NearSideOnly(schema, typ, RuleOf(v, typ, a), rel)
  {
    AnsweredAreActions(v, typ, a);
    forall spec | typ in schema.types && "parent" in schema.types[typ].relations && spec in schema.types[typ].relations["parent"]
      ensures schema.HasRule(spec.typ, a)
    {
      ScopesHaveRules(v, schema, typ, a, spec);
    }
    BodyIsNearSide(schema, typ, a, typ !in v.scopes, if typ in v.scopes then |v.scopes| > 1 else |v.scopes| > 0, rel);
  }

  /** Every relation of a generated schema but membership and role holding is read only where it is written. */
  lemma MerchantRelationIsLocal(v: Vocabulary, schema: Schema, rel: string)
    requires GoodVocabulary(v) && StandsFor(schema, v) && rel != "member_of" && rel != "holder" && rel != ""
    ensures Local(schema, rel)
  {
    if rel in schema.relations {
      DefinedAs(v, rel);
    }
    forall typ, r, target | typ in schema.types && r in schema.types[typ].relations && target in schema.types[typ].relations[r]
      ensures target.relation != rel
    {
      DeclaredAs(v, typ, r);
      TargetRelations(v, r, target);
    }
    forall typ, a | schema.HasRule(typ, a) ensures NearSideOnly(schema, typ, schema.Rule(typ, a), rel) {
      MerchantRuleIsNearSide(v, schema, typ, a, rel);
    }
  }

  /**
   * No principal of a merchant's namespace grants what it does not hold: whoever
   * newly reaches an action after an accepted write under any relation but
   * member_of and holder, the writer already reached it there.
   */
  lemma MerchantNobodyEscalates(v: Vocabulary, e: Evaluator, after: Evaluator, granter: NodeRef, p: Edge, s: NodeRef, now: int, obj: NodeRef, a: string)
    requires InUse(v, e) && p.relation != "member_of" && p.relation != "holder"
    requires CanWriteSpec(e, granter, p, CarveNone, now).None? && AtMostAdds(e, after, p)
    requires May(EnvOf(after, s, now), obj, a)
    ensures May(EnvOf(e, s, now), obj, a) || May(EnvOf(e, granter, now), obj, a)
  {
    MerchantSchemaIsAdditive(v, e.schema);
    assert p.Valid() && p.relation != "";
    MerchantRelationIsLocal(v, e.schema, p.relation);
    NoEscalation(e, after, granter, p, s, now, obj, a);
  }

  // ---- Groups and roles are outside the subset rule ----

  /** What holders and members gain is answered on other types, so writing one feeds no action of the role or group. */
  lemma PrincipalsFeedNothing(v: Vocabulary, typ: string, rel: string)
    requires GoodVocabulary(v) && typ in STRUCTURAL
    ensures ActionsFed(SchemaOf(v), typ, rel) == []
  {
    SchemaSays(v);
    assert typ !in v.scopes && typ !in v.resources;
    assert FedActions(SchemaOf(v), typ, rel) == {};
    var fed := ActionsFed(SchemaOf(v), typ, rel);
    if fed != [] {
      Sorting.HeadIsElement(fed);
    }
  }

  /** An edge whose far end fits a target of a relation its object carries is writable. */
  lemma FittingEdge(v: Vocabulary, p: Edge, spec: TargetSpec)
    requires p.obj.typ in TypeNames(v) && p.relation in Carried(v, p.obj.typ) && p.relation in RelationNames(v)
    requires spec in TargetsOf(v, p.relation) && TargetAllows(spec, p.subject)
    requires (p.obj.IsWildcard() || p.subject.node.IsWildcard()) ==> IsGrant(p.relation)
    ensures Writable(SchemaOf(v), p)
  {
    SchemaSays(v);
    assert SchemaOf(v).types[p.obj.typ] == TypeDefOf(v, p.obj.typ);
    assert SchemaOf(v).relations[p.relation] == RelationDefOf(p.relation);
  }

  /** Who a grant may name besides a single user: the holders of a role, the members of a group. */
  const KEEPERS := SubjectRef(NodeRef("role", "r"), "holder")
  const TEAM := SubjectRef(NodeRef("group", "g"), "member_of")
  const NEWCOMER := NodeRef("app_user", "s")

  predicate Collective(c: SubjectRef) {
    c == KEEPERS || c == TEAM
  }

  /** The one new edge: the newcomer joins. */
  function Joining(c: SubjectRef): Edge {
    Standing(c.node, c.relation, SubjectRef(NEWCOMER, ""))
  }

  function GrantTo(c: SubjectRef, obj: NodeRef, a: string): Edge {
    Standing(obj, Can(a), c)
  }

  /** One grant of the action on an object, to a role's holders or a group's members; and maybe somebody there. */
  function GrantedAt(c: SubjectRef, obj: NodeRef, a: string, joined: bool, node: NodeRef, rel: string): seq<Edge> {
    if node == obj && rel == Can(a) then [GrantTo(c, obj, a)]
    else if joined && node == c.node && rel == c.relation then [Joining(c)]
    else []
  }

  function GrantStore(c: SubjectRef, obj: NodeRef, a: string, joined: bool): (NodeRef, string) -> seq<Edge> {
    (node: NodeRef, rel: string) => GrantedAt(c, obj, a, joined, node, rel)
  }

  lemma CollectiveNodes(c: SubjectRef)
    requires Collective(c)
    ensures NEWCOMER.Valid() && !NEWCOMER.IsWildcard() && !c.node.IsWildcard() && Joining(c).Valid() && c.node.typ in STRUCTURAL
    ensures c.relation != "" && !IsGrant(c.relation)
  {
    NotGrants();
    assert "*"[0] == '*' && KEEPERS.node.typ[0] == 'r' && KEEPERS.node.id[0] == 'r' && TEAM.node.typ[0] == 'g' && TEAM.node.id[0] == 'g';
    assert NEWCOMER.typ[0] == 'a' && NEWCOMER.id[0] == 's' && "holder"[0] == 'h' && "member_of"[0] == 'm';
  }

  lemma JoiningIsWritable(v: Vocabulary, c: SubjectRef)
    requires GoodVocabulary(v) && Collective(c)
    ensures Writable(SchemaOf(v), Joining(c))
  {
    CollectiveNodes(c);
    StructuralTypes(v);
    NotGrants();
    assert TargetsOf(v, c.relation) == MEMBERS && MEMBERS[0] in MEMBERS;
    FittingEdge(v, Joining(c), MEMBERS[0]);
  }

  lemma GrantToIsWritable(v: Vocabulary, c: SubjectRef, obj: NodeRef, a: string)
    requires a in Answered(v, obj.typ) && Collective(c)
    ensures Writable(SchemaOf(v), GrantTo(c, obj, a))
  {
    GrantsDeclared(v, obj.typ, a);
    RuleRelationsCarried(v, obj.typ, a);
    AnsweredAreActions(v, obj.typ, a);
    NotGrants();
    assert GRANTEES[2] in GRANTEES && GRANTEES[2] == TargetSpec("role", "holder");
    assert GRANTEES[1] in GRANTEES && GRANTEES[1] == TargetSpec("group", "member_of");
    FittingEdge(v, GrantTo(c, obj, a), if c == KEEPERS then GRANTEES[2] else GRANTEES[1]);
  }

  lemma GrantStoreIsWritable(e: Evaluator, c: SubjectRef, obj: NodeRef, a: string, joined: bool)
    requires e.edges == GrantStore(c, obj, a, joined) && Writable(e.schema, GrantTo(c, obj, a)) && Writable(e.schema, Joining(c))
    ensures WritableStore(e)
  {
    forall node: NodeRef, rel: string, ed | ed in e.edges(node, rel) ensures ed.obj == node && ed.relation == rel && Writable(e.schema, ed) {
      assert ed in GrantedAt(c, obj, a, joined, node, rel);
    }
  }

  lemma GrantStoreInUse(v: Vocabulary, c: SubjectRef, obj: NodeRef, a: string, joined: bool, maxDepth: nat)
    requires GoodVocabulary(v) && a in Answered(v, obj.typ) && Collective(c)
    ensures InUse(v, Evaluator(SchemaOf(v), GrantStore(c, obj, a, joined), maxDepth))
  {
    GrantToIsWritable(v, c, obj, a);
    JoiningIsWritable(v, c);
    GrantStoreIsWritable(Evaluator(SchemaOf(v), GrantStore(c, obj, a, joined), maxDepth), c, obj, a, joined);
  }

  /** A role nobody holds, or a group nobody is in, covers nobody. */
  lemma EmptyCoversNobody(env: Env, c: SubjectRef)
    requires Collective(c) && forall node: NodeRef, ed :: !Active(env, node, c.relation, ed)
    ensures !Covers(env, c)
  {
    assert "holder"[0] == 'h' && "member_of"[0] == 'm';
    if c == TEAM {
      forall k: nat ensures !InGroup(env, k, c.node) {
      }
    }
  }

  lemma NobodyIsGranted(env: Env, c: SubjectRef, obj: NodeRef, a: string)
    requires Collective(c) && env.edges == GrantStore(c, obj, a, false)
    ensures !Owns(env, obj) && forall node: NodeRef, rel: string :: !Granted(env, node, rel)
  {
    CanIdent(a);
    NotGrants();
    CollectiveNodes(c);
    forall node: NodeRef, rel: string, ed | ed in env.edges(node, rel) ensures ed.subject == c && rel == Can(a) {
    }
    EmptyCoversNobody(env, c);
  }

  /** Before the newcomer joins nobody may do the action: the grant covers those of a role or group that is empty. */
  lemma NobodyYet(v: Vocabulary, c: SubjectRef, obj: NodeRef, a: string, maxDepth: nat, s: NodeRef, now: int)
    requires GoodVocabulary(v) && a in Answered(v, obj.typ) && Collective(c)
    ensures !May(EnvOf(Evaluator(SchemaOf(v), GrantStore(c, obj, a, false), maxDepth), s, now), obj, a)
  {
    var e := Evaluator(SchemaOf(v), GrantStore(c, obj, a, false), maxDepth);
    GrantStoreInUse(v, c, obj, a, false, maxDepth);
    MerchantRulesMean(v, e, s, now, obj, a);
    NobodyIsGranted(EnvOf(e, s, now), c, obj, a);
  }

  lemma NewcomerIsGranted(env: Env, c: SubjectRef, obj: NodeRef, a: string)
    requires Collective(c) && env.edges == GrantStore(c, obj, a, true) && env.subject == NEWCOMER
    ensures Granted(env, obj, Can(a))
  {
    CanIdent(a);
    NotGrants();
    CollectiveNodes(c);
    assert Active(env, c.node, c.relation, Joining(c));
    if c == TEAM {
      assert InGroup(env, 0, c.node);
    }
    assert Covers(env, c);
    assert Active(env, obj, Can(a), GrantTo(c, obj, a));
  }

  /** After it the newcomer may. */
  lemma NewcomerMay(v: Vocabulary, c: SubjectRef, obj: NodeRef, a: string, maxDepth: nat, now: int)
    requires GoodVocabulary(v) && a in Answered(v, obj.typ) && Collective(c)
    ensures May(EnvOf(Evaluator(SchemaOf(v), GrantStore(c, obj, a, true), maxDepth), NEWCOMER, now), obj, a)
  {
    var e := Evaluator(SchemaOf(v), GrantStore(c, obj, a, true), maxDepth);
    GrantStoreInUse(v, c, obj, a, true, maxDepth);
    NewcomerIsGranted(EnvOf(e, NEWCOMER, now), c, obj, a);
    GrantAllows(v, e, NEWCOMER, now, obj, a);
  }

  /** Anyone may make any app user hold any role or join any group. */
  lemma AnyoneMayJoin(v: Vocabulary, e: Evaluator, granter: NodeRef, c: SubjectRef, now: int)
    requires GoodVocabulary(v) && e.schema == SchemaOf(v) && granter.Valid() && Collective(c)
    ensures CanWriteSpec(e, granter, Joining(c), CarveNone, now).None?
  {
    CollectiveNodes(c);
    PrincipalsFeedNothing(v, c.node.typ, c.relation);
    JoiningIsWritable(v, c);
  }

  /**
   * The subset rule does not reach through roles and groups: nobody may do the
   * action, anyone may nevertheless write the holder or the member, and then the
   * newcomer may do it.
   */
  lemma JoiningGivesWhatNobodyHeld(v: Vocabulary, c: SubjectRef, obj: NodeRef, a: string, maxDepth: nat, granter: NodeRef, now: int)
    requires GoodVocabulary(v) && a in Answered(v, obj.typ) && granter.Valid() && Collective(c)
    ensures var e := Evaluator(SchemaOf(v), GrantStore(c, obj, a, false), maxDepth);
            var after := Evaluator(SchemaOf(v), GrantStore(c, obj, a, true), maxDepth);
            && InUse(v, e) && InUse(v, after) && AtMostAdds(e, after, Joining(c))
            && CanWriteSpec(e, granter, Joining(c), CarveNone, now).None?
            && !May(EnvOf(e, granter, now), obj, a) && !May(EnvOf(e, NEWCOMER, now), obj, a)
            && May(EnvOf(after, NEWCOMER, now), obj, a)
  {
    GrantStoreInUse(v, c, obj, a, false, maxDepth);
    GrantStoreInUse(v, c, obj, a, true, maxDepth);
    NobodyYet(v, c, obj, a, maxDepth, granter, now);
    NobodyYet(v, c, obj, a, maxDepth, NEWCOMER, now);
    NewcomerMay(v, c, obj, a, maxDepth, now);
    AnyoneMayJoin(v, Evaluator(SchemaOf(v), GrantStore(c, obj, a, false), maxDepth), granter, c, now);
  }

  // ---- Exactly which relations the subset rule contains ----

  ghost predicate WriteIsContained(v: Vocabulary, e: Evaluator, after: Evaluator, granter: NodeRef, p: Edge, s: NodeRef, now: int, obj: NodeRef, a: string) {
    InUse(v, e) && CanWriteSpec(e, granter, p, CarveNone, now).None? && AtMostAdds(e, after, p) && May(EnvOf(after, s, now), obj, a) ==>
      May(EnvOf(e, s, now), obj, a) || May(EnvOf(e, granter, now), obj, a)
  }

  /** Whatever is written under the relation, nobody newly reaches what the writer did not reach. */
  ghost predicate Contained(v: Vocabulary, rel: string) {
    forall e: Evaluator, after: Evaluator, granter: NodeRef, p: Edge, s: NodeRef, now: int, obj: NodeRef, a: string ::
      p.relation == rel ==> WriteIsContained(v, e, after, granter, p, s, now, obj, a)
  }

  lemma NoActionsNothingGained(v: Vocabulary, e: Evaluator, after: Evaluator, s: NodeRef, now: int, obj: NodeRef, a: string)
    requires InUse(v, e) && after.schema == e.schema && ActionsOf(v) == {}
    ensures !May(EnvOf(after, s, now), obj, a)
  {
    MayIsRuleDerivable(EnvOf(after, s, now), obj, a);
    if e.schema.HasRule(obj.typ, a) {
      RuleSays(v, e, obj.typ, a);
      AnsweredAreActions(v, obj.typ, a);
    }
  }

  lemma SomethingAnswered(v: Vocabulary) returns (obj: NodeRef, a: string)
    requires ActionsOf(v) != {}
    ensures a in Answered(v, obj.typ)
  {
    a :| a in ActionsOf(v);
    var r :| r in v.resources && a in v.resources[r];
    obj := NodeRef(r, "d");
  }

  /**
   * In a merchant's namespace with any action at all, the subset rule contains what
   * is written under a relation exactly when that is neither member_of nor holder.
   */
  lemma ContainedIff(v: Vocabulary, rel: string)
    requires GoodVocabulary(v)
    ensures Contained(v, rel) <==> ActionsOf(v) == {} || (rel != "member_of" && rel != "holder")
  {
    if ActionsOf(v) == {} || (rel != "member_of" && rel != "holder") {
      forall e: Evaluator, after: Evaluator, granter: NodeRef, p: Edge, s: NodeRef, now: int, obj: NodeRef, a: string | p.relation == rel
        ensures WriteIsContained(v, e, after, granter, p, s, now, obj, a)
      {
        if InUse(v, e) && CanWriteSpec(e, granter, p, CarveNone, now).None? && AtMostAdds(e, after, p) && May(EnvOf(after, s, now), obj, a) {
          if ActionsOf(v) == {} {
            NoActionsNothingGained(v, e, after, s, now, obj, a);
          } else {
            MerchantNobodyEscalates(v, e, after, granter, p, s, now, obj, a);
          }
        }
      }
    } else {
      NotContained(v, if rel == "holder" then KEEPERS else TEAM);
    }
  }

  lemma NotContained(v: Vocabulary, c: SubjectRef)
    requires GoodVocabulary(v) && ActionsOf(v) != {} && Collective(c)
    ensures !Contained(v, c.relation)
  {
    var obj, a := SomethingAnswered(v);
    var e := Evaluator(SchemaOf(v), GrantStore(c, obj, a, false), 0);
    var after := Evaluator(SchemaOf(v), GrantStore(c, obj, a, true), 0);
    CollectiveNodes(c);
    JoiningGivesWhatNobodyHeld(v, c, obj, a, 0, NEWCOMER, 0);
    assert !WriteIsContained(v, e, after, NEWCOMER, Joining(c), NEWCOMER, 0, obj, a);
    assert Joining(c).relation == c.relation;
  }
}
