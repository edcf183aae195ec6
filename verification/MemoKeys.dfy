/**
 * The text keys of the walk's memo (core/reach/walk.go:216-232, 276-278). The
 * walk is modelled with structured keys; this is why the text does as well.
 */
module MemoKeys {
  import opened Graph
  import opened Schemas
  import opened Walk
  import opened Text
  import opened Keys
  import opened Bounds
  import opened Separation
  import opened Checks
  import opened Delegate
  import opened Validation
  import Delegation
  import RuleText

  function TermText(term: Expr): string {
    if term.RuleTerm? then "rule:" + term.action else RuleText.Print(term)
  }

  function KeyText(key: Key): string {
    key.obj.ToString() + ("|" + TermText(key.term))
  }

  /** A key whose type, relations and actions are identifiers; the id may be any text. */
  predicate WellNamed(key: Key) {
    && ValidIdent(key.obj.typ)
    && match key.term
       case RelationTerm(rel) => ValidIdent(rel)
       case RuleTerm(a) => ValidIdent(a)
       case ArrowTerm(rel, target) => ValidIdent(rel) && ValidIdent(target)
       case _ => false
  }

  lemma IdentHasNo(s: string, c: char)
    requires ValidIdent(s) && !IdentChar(c, false) && !IdentChar(c, true)
    ensures c !in s
  {
  }

  /** What tells the three kinds of term apart in text. */
  lemma TermTextShape(key: Key)
    requires WellNamed(key)
    ensures '|' !in TermText(key.term)
    ensures ':' in TermText(key.term) <==> key.term.RuleTerm?
    ensures '-' in TermText(key.term) <==> key.term.ArrowTerm?
  {
    var text := TermText(key.term);
    match key.term {
      case RelationTerm(rel) =>
        IdentHasNo(rel, '|'); IdentHasNo(rel, ':'); IdentHasNo(rel, '-');
      case RuleTerm(a) =>
        IdentHasNo(a, '|'); IdentHasNo(a, '-');
        assert text[4] == ':';
      case ArrowTerm(rel, target) =>
        IdentHasNo(rel, '|'); IdentHasNo(rel, ':');
        IdentHasNo(target, '|'); IdentHasNo(target, ':');
        assert text[|rel|] == '-';
    }
  }

  lemma TermTextIsInjective(a: Key, b: Key)
    requires WellNamed(a) && WellNamed(b) && TermText(a.term) == TermText(b.term)
    ensures a.term == b.term
  {
    TermTextShape(a);
    TermTextShape(b);
    if a.term.RuleTerm? {
      assert TermText(a.term)[5..] == a.term.action && TermText(b.term)[5..] == b.term.action;
    } else if a.term.ArrowTerm? {
      IdentHasNo(a.term.relation, '-');
      IdentHasNo(b.term.relation, '-');
      assert TermText(a.term) == a.term.relation + (['-'] + (">" + a.term.target));
      assert TermText(b.term) == b.term.relation + (['-'] + (">" + b.term.target));
      FirstSplit(a.term.relation, ">" + a.term.target, b.term.relation, ">" + b.term.target, '-');
      assert (">" + a.term.target)[1..] == a.term.target && (">" + b.term.target)[1..] == b.term.target;
    }
  }

  /** Distinct questions never share a memo entry, whatever characters the ids hold. */
  lemma KeyTextIsInjective(a: Key, b: Key)
    requires WellNamed(a) && WellNamed(b)
    ensures KeyText(a) == KeyText(b) <==> a == b
  {
    if KeyText(a) == KeyText(b) {
      TermTextShape(a);
      TermTextShape(b);
      LastSplit(a.obj.ToString(), TermText(a.term), b.obj.ToString(), TermText(b.term), '|');
      TermTextIsInjective(a, b);
      IdentHasNo(a.obj.typ, ':');
      IdentHasNo(b.obj.typ, ':');
      assert a.obj.ToString() == a.obj.typ + ([':'] + a.obj.id);
      assert b.obj.ToString() == b.obj.typ + ([':'] + b.obj.id);
      FirstSplit(a.obj.typ, a.obj.id, b.obj.typ, b.obj.id, ':');
    }
  }

  /**
   * Over any types and term texts, the memo tells all questions apart exactly when
   * no type extends another past a colon and no term text precedes another past a
   * bar; ids that are not blank may be anything.
   */
  lemma MemoKeysToldApartIff(types: iset<string>, texts: iset<string>)
    requires types != iset{} && texts != iset{}
    ensures ToldApart(types, ':', texts, '|') <==> Clear(types, ':', texts, '|')
    ensures forall key :: KeyText(key) == Composed(key.obj.typ, ':', key.obj.id, '|', TermText(key.term))
  {
    ToldApartIff(types, ':', texts, '|');
    forall key ensures KeyText(key) == Composed(key.obj.typ, ':', key.obj.id, '|', TermText(key.term)) {
      KeyTextIsComposed(key);
    }
  }

  lemma KeyTextIsComposed(key: Key)
    ensures KeyText(key) == Composed(key.obj.typ, ':', key.obj.id, '|', TermText(key.term))
  {
  }

  /** A type that extends another shares memo keys with it, whatever is asked. */
  lemma ExtendedTypesCollide(typ: string, longer: string, term: Expr) returns (a: Key, b: Key)
    requires Lengthens(longer, typ, ':')
    ensures a.obj.typ == typ && b.obj.typ == longer && a != b && KeyText(a) == KeyText(b)
  {
    var id, id' := ExtendedCollides(longer, typ, ':', '|', TermText(term));
    a, b := Key(NodeRef(typ, id), term), Key(NodeRef(longer, id'), term);
    KeyTextIsComposed(a);
    KeyTextIsComposed(b);
  }

  // ---- Every question of a walk over a validated schema is well named ----

  ghost const WELL_NAMED: iset<Key> := iset key | WellNamed(key)

  /** A rule of a validated schema asks well-named questions of its object. */
  lemma {:induction false} RuleAsksWellNamed(schema: Schema, t: TypeDef, obj: NodeRef, expr: Expr)
    requires ValidSchema(schema) && t.name in schema.types && schema.types[t.name] == t && ValidIdent(obj.typ)
    requires ValidExpr(schema, t, expr)
    ensures Inside(WELL_NAMED, obj, expr)
    decreases expr
  {
    assert ValidRelations(schema, t) && ValidRules(schema, t);
    match expr {
      case Union(terms) =>
        forall term | term in terms ensures Inside(WELL_NAMED, obj, term) {
          RuleAsksWellNamed(schema, t, obj, term);
        }
      case Intersect(terms) =>
        forall term | term in terms ensures Inside(WELL_NAMED, obj, term) {
          RuleAsksWellNamed(schema, t, obj, term);
        }
      case Exclude(base, subtract) =>
        RuleAsksWellNamed(schema, t, obj, base);
        RuleAsksWellNamed(schema, t, obj, subtract);
      case RelationTerm(rel) => assert rel in schema.relations;
      case RuleTerm(a) => ActionIsIdent(schema, a);
      case ArrowTerm(rel, target) => ArrowIsWellNamed(schema, t, rel, target);
    }
  }

  lemma ActionIsIdent(schema: Schema, a: string)
    requires ValidSchema(schema) && schema.HasAction(a)
    ensures ValidIdent(a)
  {
    var i :| 0 <= i < |schema.actions| && schema.actions[i] == a;
  }

  lemma ArrowIsWellNamed(schema: Schema, t: TypeDef, rel: string, target: string)
    requires ValidSchema(schema) && t.name in schema.types && schema.types[t.name] == t
    requires ValidExpr(schema, t, ArrowTerm(rel, target))
    ensures ValidIdent(rel) && ValidIdent(target)
  {
    assert ValidRelations(schema, t);
    assert rel in t.relations && rel in schema.relations && t.relations[rel] != [];
    var spec := t.relations[rel][0];
    assert spec in t.relations[rel] && ValidTarget(schema, spec) && Answers(schema, spec.typ, target);
    TargetIsIdent(schema, spec.typ, target);
  }

  lemma TargetIsIdent(schema: Schema, typ: string, target: string)
    requires ValidSchema(schema) && Answers(schema, typ, target)
    ensures ValidIdent(target)
  {
    var far := schema.types[typ];
    assert ValidRelations(schema, far) && ValidRules(schema, far);
    if target in far.rules {
      ActionIsIdent(schema, target);
    }
  }

  /** Following a writable edge from a well-named question leads to a well-named question. */
  lemma EdgeAsksWellNamed(env: Env, key: Key, ed: Edge)
    requires ValidSchema(env.schema) && WellNamed(key) && Declared(env, key.term) && Writable(env.schema, ed)
    ensures EdgeInside(env, WELL_NAMED, key.term, ed)
  {
    var t := env.schema.types[ed.obj.typ];
    var target :| target in t.relations[ed.relation] && TargetAllows(target, ed.subject);
    assert ValidRelations(env.schema, t);
    assert ValidTarget(env.schema, target);
  }

  lemma WellNamedIsClosed(e: Evaluator, env: Env)
    requires ValidSchema(e.schema) && Delegation.WritableStore(e) && env.schema == e.schema && env.edges == e.edges
    ensures ClosedUnderAsking(env, WELL_NAMED)
  {
    forall key | key in WELL_NAMED ensures AsksInside(env, WELL_NAMED, key) {
      if key.term.RuleTerm? {
        if env.schema.HasRule(key.obj.typ, key.term.action) {
          var t := env.schema.types[key.obj.typ];
          assert ValidRules(env.schema, t);
          RuleAsksWellNamed(env.schema, t, key.obj, t.rules[key.term.action]);
        }
      } else if Declared(env, key.term) {
        forall ed | ed in OutEdges(env, key.obj, key.term) ensures EdgeInside(env, WELL_NAMED, key.term, ed) {
          assert Writable(env.schema, ed);
          EdgeAsksWellNamed(env, key, ed);
        }
      }
    }
  }

  /** Over a validated schema and writable edges no call marks anything but well-named questions. */
  lemma MarksStayWellNamed(e: Evaluator, env: Env, obj: NodeRef, expr: Expr, depth: nat, memo: Memo)
    requires ValidSchema(e.schema) && Delegation.WritableStore(e) && env.schema == e.schema && env.edges == e.edges
    requires Inside(WELL_NAMED, obj, expr) && forall key :: key in memo.marks ==> WellNamed(key)
    ensures forall key :: key in Satisfies(env, obj, expr, depth, memo).memo.marks ==> WellNamed(key)
  {
    WellNamedIsClosed(e, env);
    Framed(env, WELL_NAMED, map[], obj, expr, depth, memo);
  }

  /** In particular a check of a declared type marks only such questions, whatever the ids. */
  lemma ChecksAreWellNamed(e: Evaluator, subject: NodeRef, now: int, resource: NodeRef, action: string)
    requires ValidSchema(e.schema) && Delegation.WritableStore(e) && e.schema.HasRule(resource.typ, action)
    ensures Inside(WELL_NAMED, resource, e.schema.Rule(resource.typ, action))
    ensures forall key :: key in AskRule(EnvOf(e, subject, now), resource, action).memo.marks ==> WellNamed(key)
  {
    var t := e.schema.types[resource.typ];
    assert ValidRules(e.schema, t);
    RuleAsksWellNamed(e.schema, t, resource, t.rules[action]);
    MarksStayWellNamed(e, EnvOf(e, subject, now), resource, e.schema.Rule(resource.typ, action), 0, EMPTY_MEMO);
  }

  // ---- So a memo under text keys mirrors the memo under structured keys ----

  /** The text memo holds the same marks, as far as well-named questions go. */
  ghost predicate Mirrors(texts: map<string, Mark>, marks: map<Key, Mark>) {
    forall key :: WellNamed(key) ==>
      (KeyText(key) in texts <==> key in marks) && (key in marks ==> texts[KeyText(key)] == marks[key])
  }

  /** The three things the walk does to its memo keep the mirror: start, mark and forget. */
  lemma MirrorKept(texts: map<string, Mark>, marks: map<Key, Mark>, key: Key, mark: Mark)
    requires Mirrors(texts, marks) && WellNamed(key)
    ensures Mirrors(map[], map[])
    ensures Mirrors(texts[KeyText(key) := mark], marks[key := mark])
    ensures Mirrors(texts - {KeyText(key)}, marks - {key})
  {
    forall other | WellNamed(other) ensures KeyText(other) == KeyText(key) <==> other == key {
      KeyTextIsInjective(other, key);
    }
  }
}

/**
 * The text keys of the two candidate searches (core/reach/reverse.go:144-199,
 * 248-303): over a validated schema and writable edges they tell points and nodes
 * apart, so searching by value is searching by text.
 */
module SearchKeys {
  import opened Graph
  import opened Schemas
  import opened Text
  import opened Levels
  import opened Candidacy
  import opened Checks
  import opened Delegate
  import opened Validation
  import Delegation
  import MemoKeys

  function PointText(at: Point): string {
    at.node.ToString() + ("#" + at.relation)
  }

  predicate IdentPoint(at: Point) {
    ValidIdent(at.node.typ) && (at.relation == "" || ValidIdent(at.relation))
  }

  /** Nodes of identifier types share a text only if equal, whatever their ids hold. */
  lemma NodeTextIsInjective(a: NodeRef, b: NodeRef)
    requires ValidIdent(a.typ) && ValidIdent(b.typ)
    ensures a.ToString() == b.ToString() <==> a == b
  {
    if a.ToString() == b.ToString() {
      MemoKeys.IdentHasNo(a.typ, ':');
      MemoKeys.IdentHasNo(b.typ, ':');
      assert a.ToString() == a.typ + ([':'] + a.id) && b.ToString() == b.typ + ([':'] + b.id);
      FirstSplit(a.typ, a.id, b.typ, b.id, ':');
    }
  }

  lemma PointTextIsInjective(a: Point, b: Point)
    requires IdentPoint(a) && IdentPoint(b)
    ensures PointText(a) == PointText(b) <==> a == b
  {
    if PointText(a) == PointText(b) {
      NoHash(a.relation);
      NoHash(b.relation);
      LastSplit(a.node.ToString(), a.relation, b.node.ToString(), b.relation, '#');
      NodeTextIsInjective(a.node, b.node);
    }
  }

  lemma NoHash(relation: string)
    requires relation == "" || ValidIdent(relation)
    ensures '#' !in relation
  {
    if relation != "" {
      MemoKeys.IdentHasNo(relation, '#');
    }
  }

  /** The index returns writable edges of the node asked for. */
  ghost predicate WritableIndex(schema: Schema, rev: NodeRef -> seq<Edge>) {
    forall node: NodeRef, ed :: ed in rev(node) ==> ed.subject.node == node && Writable(schema, ed)
  }

  lemma WritableIsNamed(schema: Schema, ed: Edge)
    requires ValidSchema(schema) && Writable(schema, ed)
    ensures ValidIdent(ed.obj.typ) && ValidIdent(ed.relation) && ValidIdent(ed.subject.node.typ)
  {
    var t := schema.types[ed.obj.typ];
    var target :| target in t.relations[ed.relation] && TargetAllows(target, ed.subject);
    assert ValidRelations(schema, t);
    assert ValidTarget(schema, target);
  }

  /** Every point of the backward search is named by identifiers. */
  lemma {:induction false} BackPointsAreNamed(schema: Schema, rev: NodeRef -> seq<Edge>, subject: NodeRef, n: nat, at: Point)
    requires ValidSchema(schema) && WritableIndex(schema, rev) && ValidIdent(subject.typ)
    requires BackIn(rev, subject, n, at)
    ensures IdentPoint(at)
  {
    if n > 0 {
      var prev: Point :| BackIn(rev, subject, n - 1, prev) && LeadsBack(rev, prev, at);
      var ed :| Carries(rev, prev, ed) && (at == Point(ed.obj, "") || at == Point(ed.obj, ed.relation));
      WritableIsNamed(schema, ed);
    }
  }

  /** Every node of the forward search is. */
  lemma {:induction false} ForwardNodesAreNamed(e: Evaluator, resource: NodeRef, n: nat, node: NodeRef)
    requires ValidSchema(e.schema) && Delegation.WritableStore(e) && ValidIdent(resource.typ)
    requires ForwardIn(e, resource, n, node)
    ensures ValidIdent(node.typ)
  {
    if n > 0 {
      var prev: NodeRef :| ForwardIn(e, resource, n - 1, prev) && NamesNode(e, prev, node);
      var rel, ed :| rel in e.schema.relations && (ed in e.edges(prev, rel) || ed in e.edges(Star(prev.typ), rel)) && node == ed.subject.node;
      WritableIsNamed(e.schema, ed);
    }
  }

  /**
   * In the backward search two points have one text only if they are one point, and
   * the candidates have as many texts as there are candidates.
   */
  lemma BackwardKeysAreFaithful(schema: Schema, rev: NodeRef -> seq<Edge>, subject: NodeRef, typ: string, a: Point, b: Point, found: set<NodeRef>)
    requires ValidSchema(schema) && WritableIndex(schema, rev) && ValidIdent(subject.typ)
    requires BackReached(rev, subject, a) && BackReached(rev, subject, b)
    requires forall node :: node in found ==> ObjectCandidate(rev, subject, typ, node)
    ensures PointText(a) == PointText(b) <==> a == b
    ensures |Texts(found)| == |found|
  {
    var n: nat :| BackIn(rev, subject, n, a);
    var m: nat :| BackIn(rev, subject, m, b);
    BackPointsAreNamed(schema, rev, subject, n, a);
    BackPointsAreNamed(schema, rev, subject, m, b);
    PointTextIsInjective(a, b);
    forall node | node in found ensures ValidIdent(node.typ) {
      var at: Point, ed :| BackReached(rev, subject, at) && Carries(rev, at, ed) && ed.obj == node;
      WritableIsNamed(schema, ed);
    }
    AsManyTexts(found);
  }

  /** The same of the forward search, whose points are nodes. */
  lemma ForwardKeysAreFaithful(e: Evaluator, resource: NodeRef, a: NodeRef, b: NodeRef, found: set<NodeRef>)
    requires ValidSchema(e.schema) && Delegation.WritableStore(e) && ValidIdent(resource.typ)
    requires ForwardReached(e, resource, a) && ForwardReached(e, resource, b)
    requires forall node :: node in found ==> SubjectCandidate(e, resource, node)
    ensures a.ToString() == b.ToString() <==> a == b
    ensures |Texts(found)| == |found|
  {
    var n: nat :| ForwardIn(e, resource, n, a);
    var m: nat :| ForwardIn(e, resource, m, b);
    ForwardNodesAreNamed(e, resource, n, a);
    ForwardNodesAreNamed(e, resource, m, b);
    NodeTextIsInjective(a, b);
    forall node | node in found ensures ValidIdent(node.typ) {
      var at :| ForwardReached(e, resource, at) && NamesNode(e, at, node);
      NamedReached(e, resource, at, node);
      var k: nat :| ForwardIn(e, resource, k, node);
      ForwardNodesAreNamed(e, resource, k, node);
    }
    AsManyTexts(found);
  }

  function Texts(nodes: set<NodeRef>): set<string> {
    set node | node in nodes :: node.ToString()
  }

  lemma {:induction false} AsManyTexts(nodes: set<NodeRef>)
    requires forall node :: node in nodes ==> ValidIdent(node.typ)
    ensures |Texts(nodes)| == |nodes|
  {
    if node :| node in nodes {
      var rest := nodes - {node};
      AsManyTexts(rest);
      forall other | other in rest ensures other.ToString() != node.ToString() {
        NodeTextIsInjective(other, node);
      }
      assert Texts(nodes) == Texts(rest) + {node.ToString()};
    }
  }
}
