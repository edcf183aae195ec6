/**
 * Organisation lifecycle in the platform's own schema: membership is a
 * subtraction that oversight stands outside of, and reach is membership without
 * the subtraction (internal/accessmodel/schema.go:95-105).
 */
module Lifecycle {
  import opened Wrappers
  import opened Graph
  import opened Schemas
  import opened Walk
  import opened Semantics
  import opened Soundness
  import opened Exactness
  import opened Checks
  import opened CheckTheorems
  import opened RuleText
  import opened Reading
  import opened Separation
  import opened Knots
  import opened Validation
  import opened Delegate
  import opened Bounds
  import Delegation
  import Grounding
  import Text

  const ORGANISATION := "organisation"

  const BELONGS := RelationTerm("belongs")
  const SUSPENDED := RelationTerm("suspended")
  const OVERSEES := RelationTerm("oversees")

  const MEMBER_RULE := Union([Exclude(BELONGS, SUSPENDED), OVERSEES])
  const REACH_RULE := Union([BELONGS, OVERSEES])

  const MEMBER_BODY := (("belongs" + " ") + ['-'] + (" " + "suspended") + " ") + ['+'] + (" " + "oversees")
  const REACH_BODY := ("belongs" + " ") + ['+'] + (" " + "oversees")

  /** The organisation's two lifecycle rules; no other type answers reach. */
  ghost predicate HasLifecycle(schema: Schema) {
    && schema.HasRule(ORGANISATION, "member") && schema.Rule(ORGANISATION, "member") == MEMBER_RULE
    && schema.HasRule(ORGANISATION, "reach") && schema.Rule(ORGANISATION, "reach") == REACH_RULE
    && (forall typ :: schema.HasRule(typ, "reach") ==> typ == ORGANISATION)
    && (forall typ :: schema.HasRule(typ, "member") ==> typ == ORGANISATION)
  }

  /** Both lifecycle bodies, read left to right, are those two trees: oversight stands outside the subtraction. */
  lemma LifecycleBodiesParse(t: TypeDef)
    requires {"belongs", "suspended", "oversees"} <= t.relations.Keys
    ensures Parse(MEMBER_BODY).Ok? && Resolve(t, Parse(MEMBER_BODY).value) == Ok(MEMBER_RULE)
    ensures Parse(REACH_BODY).Ok? && Resolve(t, Parse(REACH_BODY).value) == Ok(REACH_RULE)
  {
    var b, s, o := IdentTerm("belongs"), IdentTerm("suspended"), IdentTerm("oversees");
    ReadsWord(t, "belongs");
    ReadsMore(t, "belongs", b, BELONGS, '-', s, SUSPENDED);
    var text := ("belongs" + " ") + ['-'] + (" " + Print(s));
    ReadsMore(t, text, Exclude(b, s), Exclude(BELONGS, SUSPENDED), '+', o, OVERSEES);
    ReadsParse(t, MEMBER_BODY, Union([Exclude(b, s), o]), MEMBER_RULE);
    ReadsMore(t, "belongs", b, BELONGS, '+', o, OVERSEES);
    ReadsParse(t, REACH_BODY, Union([b, o]), REACH_RULE);
  }

  lemma ReachIsAdditive(schema: Schema)
    requires HasLifecycle(schema)
    ensures AdditiveOn(schema, iset{"reach"})
  {
  }

  /** Whatever derives membership derives reach: reach drops the subtraction. */
  lemma MemberDerivesReach(env: Env, org: NodeRef)
    requires HasLifecycle(env.schema) && org.typ == ORGANISATION
    requires Derivable(env, org, MEMBER_RULE)
    ensures May(env, org, "reach")
  {
    var n: nat :| Derives(env, n, org, MEMBER_RULE);
    var t :| t in MEMBER_RULE.terms && Derives(env, n, org, t);
    var u := if t == OVERSEES then OVERSEES else BELONGS;
    assert u in REACH_RULE.terms && Derives(env, n, org, u);
    assert Derives(env, n, org, REACH_RULE);
    MayIsRuleDerivable(env, org, "reach");
  }

  /** Membership is contained in reach, on any data, suspensions and cycles included. */
  lemma MemberWithinReach(e: Evaluator, subject: NodeRef, org: NodeRef, now: int)
    requires HasLifecycle(e.schema)
    ensures var member := CheckSpec(e, Request(subject, "member", org), now);
            var reach := CheckSpec(e, Request(subject, "reach", org), now);
            member.Ok? && reach.Ok? && member.value.allowed ==> reach.value.allowed
  {
    var env := EnvOf(e, subject, now);
    var member := CheckSpec(e, Request(subject, "member", org), now);
    ReachIsAdditive(e.schema);
    CheckDecidesAdditiveAction(e, iset{"reach"}, Request(subject, "reach", org), now);
    if member.Ok? && member.value.allowed {
      MatchIsEarned(env, org, MEMBER_RULE, 0, EMPTY_MEMO);
      assert Keeps(env, env, member.value.path);
      MemberDerivesReach(env, org);
    }
  }

  /** On data with no cycle below the organisation, member is exactly (belongs and not suspended) or oversees. */
  lemma MemberMeans(e: Evaluator, n: nat, subject: NodeRef, org: NodeRef, now: int)
    requires HasLifecycle(e.schema) && org.typ == ORGANISATION
    requires GroundedResource(EnvOf(e, subject, now), n, org)
    ensures var env := EnvOf(e, subject, now);
            var member := CheckSpec(e, Request(subject, "member", org), now);
            member.Ok? ==>
              (member.value.allowed <==>
                (Grounding.Holds(env, n, org, BELONGS) && !Grounding.Holds(env, n, org, SUSPENDED)) || Grounding.Holds(env, n, org, OVERSEES))
  {
    var env := EnvOf(e, subject, now);
    CheckDecidesMeaning(e, n, Request(subject, "member", org), now);
    assert MEMBER_RULE.terms[0] == Exclude(BELONGS, SUSPENDED) && MEMBER_RULE.terms[1] == OVERSEES;
    assert Grounding.Holds(env, n, org, MEMBER_RULE) <==>
           Grounding.Holds(env, n, org, MEMBER_RULE.terms[0]) || Grounding.Holds(env, n, org, MEMBER_RULE.terms[1]);
  }

  // ---- Members on cyclic data ----

  lemma MemberIsSeparate(env: Env, kb: iset<Key>, ks: iset<Key>, ko: iset<Key>, org: NodeRef)
    requires ClosedUnderAsking(env, kb) && ClosedUnderAsking(env, ks) && ClosedUnderAsking(env, ko)
    requires Key(org, BELONGS) in kb && Key(org, SUSPENDED) in ks && Key(org, OVERSEES) in ko
    requires Apart(env, kb, ks) && Apart(env, kb, ko) && Apart(env, ks, ko)
    ensures Separate(env, iset{}, kb + ks + ko, org, MEMBER_RULE)
  {
    SeparateExclude(env, iset{}, kb, ks, org, BELONGS, SUSPENDED);
    assert Apart(env, kb + ks, ko);
    SeparateUnion(env, iset{}, kb + ks, ko, org, Exclude(BELONGS, SUSPENDED), OVERSEES);
  }

  lemma MeantMember(env: Env, org: NodeRef)
    ensures Meant(env, org, MEMBER_RULE) <==>
            (Derivable(env, org, BELONGS) && !Derivable(env, org, SUSPENDED)) || Derivable(env, org, OVERSEES)
  {
    var terms := MEMBER_RULE.terms;
    MeantUnfolds(env, org, MEMBER_RULE);
    assert terms[0] == Exclude(BELONGS, SUSPENDED) && terms[1] == OVERSEES;
    assert Meant(env, org, MEMBER_RULE) <==> Meant(env, org, terms[0]) || Meant(env, org, terms[1]);
    MeantUnfolds(env, org, terms[0]);
    RelationMeant(env, org, "belongs");
    RelationMeant(env, org, "suspended");
    RelationMeant(env, org, "oversees");
  }

  /**
   * On any data on which belonging, suspension and oversight share grounded
   * questions only, cycles elsewhere included, member is exactly (belongs and not
   * suspended) or oversees.
   */
  lemma MemberMeansSeparate(e: Evaluator, kb: iset<Key>, ks: iset<Key>, ko: iset<Key>, subject: NodeRef, org: NodeRef, now: int)
    requires HasLifecycle(e.schema) && org.typ == ORGANISATION
    requires var env := EnvOf(e, subject, now);
             && ClosedUnderAsking(env, kb) && ClosedUnderAsking(env, ks) && ClosedUnderAsking(env, ko)
             && Apart(env, kb, ks) && Apart(env, kb, ko) && Apart(env, ks, ko)
    requires Key(org, BELONGS) in kb && Key(org, SUSPENDED) in ks && Key(org, OVERSEES) in ko
    ensures var env := EnvOf(e, subject, now);
            var member := CheckSpec(e, Request(subject, "member", org), now);
            member.Ok? ==>
              (member.value.allowed <==>
                (Derivable(env, org, BELONGS) && !Derivable(env, org, SUSPENDED)) || Derivable(env, org, OVERSEES))
  {
    var env := EnvOf(e, subject, now);
    MemberIsSeparate(env, kb, ks, ko, org);
    MeantMember(env, org);
    CheckDecidesSeparate(e, iset{}, kb + ks + ko, Request(subject, "member", org), now);
  }

  /** The declarations membership rests on: groups in groups, holders of roles, principals of an organisation. */
  ghost predicate HasMembership(schema: Schema) {
    && HasLifecycle(schema) && schema.HasAction("member")
    && schema.relations.Keys >= {"member_of", "holder", "belongs", "suspended"}
    && "group" in schema.types && Carries(schema.types["group"], "member_of", TargetSpec("user", ""))
    && Carries(schema.types["group"], "member_of", TargetSpec("group", "member_of"))
    && "role" in schema.types && Carries(schema.types["role"], "holder", TargetSpec("group", "member_of"))
    && Carries(schema.types[ORGANISATION], "belongs", TargetSpec("role", "holder"))
    && Carries(schema.types[ORGANISATION], "suspended", TargetSpec("role", "holder"))
  }

  predicate Carries(t: TypeDef, rel: string, target: TargetSpec) {
    rel in t.relations && target in t.relations[rel]
  }

  const ORG := NodeRef(ORGANISATION, "o")
  const STAFF := NodeRef("role", "x")
  const BARRED := NodeRef("role", "y")
  const INNER := NodeRef("group", "l")
  const OUTER := NodeRef("group", "r")
  const CALLER := NodeRef("user", "a")

  /** Two groups inside each other; the one that names the caller belongs, the other is suspended. */
  function MemberKnot(obj: NodeRef, rel: string): seq<Edge> {
    if obj == ORG && rel == "belongs" then [Standing(ORG, "belongs", SubjectRef(STAFF, "holder"))]
    else if obj == ORG && rel == "suspended" then [Standing(ORG, "suspended", SubjectRef(BARRED, "holder"))]
    else if obj == STAFF && rel == "holder" then [Standing(STAFF, "holder", SubjectRef(INNER, "member_of"))]
    else if obj == BARRED && rel == "holder" then [Standing(BARRED, "holder", SubjectRef(OUTER, "member_of"))]
    else if obj == INNER && rel == "member_of" then
      [Standing(INNER, "member_of", SubjectRef(OUTER, "member_of")), Standing(INNER, "member_of", SubjectRef(CALLER, ""))]
    else if obj == OUTER && rel == "member_of" then [Standing(OUTER, "member_of", SubjectRef(INNER, "member_of"))]
    else []
  }

  ghost predicate Knotted(env: Env) {
    HasMembership(env.schema) && env.edges == MemberKnot && env.subject == CALLER && env.maxDepth >= 4
  }

  lemma KnotNodes()
    ensures ORG.Valid() && CALLER.Valid()
    ensures !ORG.IsWildcard() && !STAFF.IsWildcard() && !BARRED.IsWildcard() && !INNER.IsWildcard() && !OUTER.IsWildcard() && !CALLER.IsWildcard()
    ensures STAFF != BARRED && INNER != OUTER && |{ORG.typ, STAFF.typ, INNER.typ, CALLER.typ}| == 4
  {
    assert "*"[0] == '*' && ORG.id[0] == 'o' && STAFF.id[0] == 'x' && BARRED.id[0] == 'y' && INNER.id[0] == 'l' && OUTER.id[0] == 'r' && CALLER.id[0] == 'a';
    assert ORG.typ[0] == 'o' && STAFF.typ[0] == 'r' && INNER.typ[0] == 'g' && CALLER.typ[0] == 'u';
  }

  lemma OutOfKnot(env: Env, obj: NodeRef, rel: string)
    requires Knotted(env) && rel in env.schema.relations
    ensures OutEdges(env, obj, RelationTerm(rel)) == MemberKnot(obj, rel)
  {
    KnotNodes();
    assert MemberKnot(Star(obj.typ), rel) == [];
    assert MemberKnot(obj, rel) + [] == MemberKnot(obj, rel);
  }

  lemma KnotEdges(env: Env)
    requires Knotted(env)
    ensures Knot(env, INNER, OUTER, "member_of")
    ensures OutEdges(env, ORG, BELONGS) == [Standing(ORG, "belongs", SubjectRef(STAFF, "holder"))]
    ensures OutEdges(env, ORG, SUSPENDED) == [Standing(ORG, "suspended", SubjectRef(BARRED, "holder"))]
    ensures OutEdges(env, STAFF, RelationTerm("holder")) == [Standing(STAFF, "holder", SubjectRef(INNER, "member_of"))]
    ensures OutEdges(env, BARRED, RelationTerm("holder")) == [Standing(BARRED, "holder", SubjectRef(OUTER, "member_of"))]
  {
    KnotNodes();
    OutOfKnot(env, INNER, "member_of");
    OutOfKnot(env, OUTER, "member_of");
    OutOfKnot(env, ORG, "belongs");
    OutOfKnot(env, ORG, "suspended");
    OutOfKnot(env, STAFF, "holder");
    OutOfKnot(env, BARRED, "holder");
  }

  lemma NobodyOversees(env: Env)
    requires Knotted(env)
    ensures !Derivable(env, ORG, OVERSEES)
  {
    if "oversees" in env.schema.relations {
      OutOfKnot(env, ORG, "oversees");
      assert MemberKnot(ORG, "oversees") == [] by {
        assert "oversees"[0] == 'o' && "belongs"[0] == 'b' && "suspended"[0] == 's';
        KnotNodes();
      }
    }
  }

  /** The chain through the inner group matches and leaves the outer one dead. */
  lemma BelongsMatches(env: Env)
    requires Knotted(env)
    ensures var a := Satisfies(env, ORG, BELONGS, 0, EMPTY_MEMO);
            a.out.Matched? && a.memo.marks == map[Key(OUTER, RelationTerm("member_of")) := Dead]
  {
    KnotNodes();
    KnotEdges(env);
    DoorMatches(env, ORG, "belongs", STAFF, "holder", INNER, OUTER, "member_of");
  }

  /** The chain through the outer group then stops at the dead mark. */
  lemma SuspendedMisses(env: Env, memo: Memo)
    requires Knotted(env) && memo.marks == map[Key(OUTER, RelationTerm("member_of")) := Dead]
    ensures Satisfies(env, ORG, SUSPENDED, 0, memo).out.Missed?
  {
    KnotNodes();
    KnotEdges(env);
    DoorMisses(env, ORG, "suspended", BARRED, "holder", OUTER, "member_of", memo);
  }

  lemma SuspensionHolds(env: Env)
    requires Knotted(env)
    ensures Derivable(env, ORG, BELONGS) && Derivable(env, ORG, SUSPENDED)
  {
    KnotEdges(env);
    KnotHolds(env, INNER, OUTER, "member_of");
    DerivableByEdge(env, STAFF, RelationTerm("holder"), Standing(STAFF, "holder", SubjectRef(INNER, "member_of")));
    DerivableByEdge(env, BARRED, RelationTerm("holder"), Standing(BARRED, "holder", SubjectRef(OUTER, "member_of")));
    DerivableByEdge(env, ORG, BELONGS, Standing(ORG, "belongs", SubjectRef(STAFF, "holder")));
    DerivableByEdge(env, ORG, SUSPENDED, Standing(ORG, "suspended", SubjectRef(BARRED, "holder")));
  }

  lemma KnotIsWritable(e: Evaluator)
    requires HasMembership(e.schema) && e.edges == MemberKnot
    ensures Delegation.WritableStore(e)
  {
    KnotNodes();
    forall obj: NodeRef, rel: string, ed | ed in e.edges(obj, rel)
      ensures ed.obj == obj && ed.relation == rel && Writable(e.schema, ed)
    {
      assert ed in MemberKnot(obj, rel);
      KnotEdgeIsWritable(e.schema, obj, rel, ed);
    }
  }

  lemma KnotEdgeIsWritable(schema: Schema, obj: NodeRef, rel: string, ed: Edge)
    requires HasMembership(schema) && ed in MemberKnot(obj, rel)
    ensures Writable(schema, ed)
  {
    KnotNodes();
    var targets := schema.types[obj.typ].relations[rel];
    var target := TargetSpec(ed.subject.node.typ, ed.subject.relation);
    assert target in targets && TargetAllows(target, ed.subject);
  }

  /**
   * Where MemberMeans and MemberMeansSeparate do not reach: on writable edges with
   * two groups inside each other, Check allows `member` to a caller who belongs
   * through one and is suspended through the other, in every schema that declares
   * membership as the platform's does.
   */
  lemma MemberMissesASuspension(e: Evaluator, now: int)
    requires HasMembership(e.schema) && e.edges == MemberKnot && e.maxDepth >= 4
    ensures Delegation.WritableStore(e)
    ensures var env := EnvOf(e, CALLER, now);
            var r := CheckSpec(e, Request(CALLER, "member", ORG), now);
            r.Ok? && r.value.allowed && Derivable(env, ORG, SUSPENDED) && !Meant(env, ORG, MEMBER_RULE)
  {
    var env := EnvOf(e, CALLER, now);
    KnotNodes();
    KnotIsWritable(e);
    SuspensionHolds(env);
    NobodyOversees(env);
    MeantMember(env, ORG);
    MemberMatches(env);
  }

  lemma MemberMatches(env: Env)
    requires Knotted(env)
    ensures Satisfies(env, ORG, MEMBER_RULE, 0, EMPTY_MEMO).out.Matched?
  {
    BelongsMatches(env);
    SuspendedMisses(env, Satisfies(env, ORG, BELONGS, 0, EMPTY_MEMO).memo);
    var terms := MEMBER_RULE.terms;
    ExcludeAnswer(env, ORG, terms[0], 0, EMPTY_MEMO);
    assert Satisfies(env, ORG, terms[0], 0, EMPTY_MEMO).out.Matched?;
    assert AnyOf(env, ORG, terms, 0, EMPTY_MEMO).out.Matched?;
  }

  // ---- A validated schema that declares membership so ----

  const USERS := [TargetSpec("user", ""), TargetSpec("group", "member_of")]
  const PRINCIPALS := [TargetSpec("user", ""), TargetSpec("key", ""), TargetSpec("recovery", ""), TargetSpec("role", "holder")]

  const RELATIONS: set<string> := {"member_of", "holder", "belongs", "suspended", "oversees"}
  const TYPES: set<string> := {"user", "recovery", "key", "group", "role", ORGANISATION}

  function PlatformRelation(rel: string): RelationDef {
    RelationDef(rel, rel == "member_of", if rel == "belongs" || rel == "oversees" then WildcardObject else WildcardNone)
  }

  function PlatformTargets(rel: string): seq<TargetSpec> {
    if rel == "member_of" || rel == "holder" then USERS else PRINCIPALS
  }

  function CarriedBy(typ: string): set<string> {
    if typ == "group" then {"member_of"}
    else if typ == "role" then {"holder"}
    else if typ == ORGANISATION then {"belongs", "suspended", "oversees"}
    else {}
  }

  function AnsweredBy(typ: string): set<string> {
    if typ == ORGANISATION then {"member", "reach"} else {}
  }

  function PlatformRule(action: string): Expr {
    if action == "member" then MEMBER_RULE else REACH_RULE
  }

  function PlatformType(typ: string): TypeDef {
    TypeDef(typ, map rel | rel in CarriedBy(typ) :: PlatformTargets(rel), map a | a in AnsweredBy(typ) :: PlatformRule(a))
  }

  /** The part of the platform's schema that membership and reach rest on. */
  const PLATFORM := Schema(
    "kyc",
    ["member", "reach"],
    map rel | rel in RELATIONS :: PlatformRelation(rel),
    map typ | typ in TYPES :: PlatformType(typ))

  lemma RelationsAreIdents(rel: string)
    requires rel in RELATIONS
    ensures Text.ValidIdent(rel)
  {
  }

  lemma TypesAreIdents(typ: string)
    requires typ in TYPES
    ensures Text.ValidIdent(typ)
  {
  }

  lemma PlatformNames()
    ensures Text.ValidIdent("member") && Text.ValidIdent("reach") && "member" != "reach" && !Text.Blank("kyc")
    ensures "group" != "role" && "group" != ORGANISATION && "role" != ORGANISATION
  {
    assert "member"[0] == 'm' && "reach"[0] == 'r' && "kyc"[0] == 'k';
    assert "group"[0] == 'g' && "role"[0] == 'r' && ORGANISATION[0] == 'o';
  }

  lemma TargetsAreValid(rel: string)
    ensures PlatformTargets(rel) != []
    ensures forall spec :: spec in PlatformTargets(rel) ==> ValidTarget(PLATFORM, spec)
  {
    PlatformNames();
    var schema := PLATFORM;
    assert ValidTarget(schema, TargetSpec("user", "")) && ValidTarget(schema, TargetSpec("key", "")) && ValidTarget(schema, TargetSpec("recovery", ""));
    assert "member_of" in schema.types["group"].relations && "holder" in schema.types["role"].relations;
    assert ValidTarget(schema, TargetSpec("group", "member_of")) && ValidTarget(schema, TargetSpec("role", "holder"));
  }

  lemma TypeIsValid(typ: string)
    requires typ in TYPES
    ensures ValidRelations(PLATFORM, PlatformType(typ)) && ValidRules(PLATFORM, PlatformType(typ))
  {
    var t := PlatformType(typ);
    forall rel | rel in t.relations
      ensures rel in RELATIONS && PlatformTargets(rel) != [] && forall spec :: spec in PlatformTargets(rel) ==> ValidTarget(PLATFORM, spec)
    {
      TargetsAreValid(rel);
    }
    forall a | a in t.rules ensures PLATFORM.HasAction(a) && ValidExpr(PLATFORM, t, PlatformRule(a)) && CycleFree(t, a, {}) {
      RuleIsValid(t, a);
    }
  }

  lemma RuleIsValid(t: TypeDef, a: string)
    requires t == PlatformType(ORGANISATION) && a in AnsweredBy(ORGANISATION)
    ensures PLATFORM.HasAction(a) && ValidExpr(PLATFORM, t, PlatformRule(a)) && CycleFree(t, a, {})
  {
    PlatformNames();
    var seen := {} + {a};
    assert PLATFORM.actions[0] == "member" && PLATFORM.actions[1] == "reach";
    assert "belongs" in t.relations && "suspended" in t.relations && "oversees" in t.relations;
    assert ExprCycleFree(t, BELONGS, seen) && ExprCycleFree(t, SUSPENDED, seen) && ExprCycleFree(t, OVERSEES, seen);
    assert ExprCycleFree(t, Exclude(BELONGS, SUSPENDED), seen);
    assert ExprCycleFree(t, PlatformRule(a), seen);
  }

  lemma PlatformIsValid()
    ensures ValidSchema(PLATFORM)
  {
    PlatformNames();
    forall rel | rel in PLATFORM.relations ensures Text.ValidIdent(rel) {
      RelationsAreIdents(rel);
    }
    forall typ | typ in PLATFORM.types
      ensures Text.ValidIdent(typ) && ValidRelations(PLATFORM, PLATFORM.types[typ]) && ValidRules(PLATFORM, PLATFORM.types[typ])
    {
      TypesAreIdents(typ);
      TypeIsValid(typ);
    }
  }

  lemma PlatformHasMembership()
    ensures HasMembership(PLATFORM)
  {
    PlatformNames();
    assert PLATFORM.actions[0] == "member";
    assert USERS[0] == TargetSpec("user", "") && USERS[1] == TargetSpec("group", "member_of") && PRINCIPALS[3] == TargetSpec("role", "holder");
    assert "member_of" != "belongs" && "belongs" != "holder" && "suspended" != "holder" && "suspended" != "member_of" by {
      assert "member_of"[0] == 'm' && "belongs"[0] == 'b' && "holder"[0] == 'h' && "suspended"[0] == 's';
    }
  }

  /** A validated schema, writable edges, and a suspended caller Check lets in as a member. */
  lemma ValidatedMemberMissesASuspension(maxDepth: nat, now: int)
    requires maxDepth >= 4
    ensures var e := Evaluator(PLATFORM, MemberKnot, maxDepth);
            var r := CheckSpec(e, Request(CALLER, "member", ORG), now);
            && ValidSchema(e.schema) && Delegation.WritableStore(e)
            && r.Ok? && r.value.allowed && !Meant(EnvOf(e, CALLER, now), ORG, MEMBER_RULE)
  {
    PlatformIsValid();
    PlatformHasMembership();
    MemberMissesASuspension(Evaluator(PLATFORM, MemberKnot, maxDepth), now);
  }
}
