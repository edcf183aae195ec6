/**
 * Intersection and subtraction on cyclic data: where the walk's memo goes wrong
 * (core/reach/walk.go:272-293).
 */
module Knots {
  import opened Wrappers
  import opened Graph
  import opened Schemas
  import opened Walk
  import opened Semantics
  import opened Separation
  import opened Checks
  import opened Validation
  import opened Delegate
  import Delegation
  import Exactness
  import Sorting
  import Text

  // ---- One step of a walk ----

  /** A relation with a single edge to ask about answers as that question does. */
  lemma Through(env: Env, obj: NodeRef, rel: string, ed: Edge, depth: nat, memo: Memo)
    requires rel in env.schema.relations && depth <= env.maxDepth && Key(obj, RelationTerm(rel)) !in memo.marks
    requires OutEdges(env, obj, RelationTerm(rel)) == [ed] && ed.expiresAt.None? && ed.subject.IsUserset()
    ensures var term := RelationTerm(rel);
            var a := Satisfies(env, ed.subject.node, RelationTerm(ed.subject.relation), depth + 1, Opened(memo, Key(obj, term)));
            Satisfies(env, obj, term, depth, memo)
            == (match a.out
                case Failed(_) => a
                case Matched(path) => Answer(Matched([StepOf(ed)] + path), a.memo.(marks := a.memo.marks - {Key(obj, term)}))
                case Missed => Answer(Missed, a.memo.(marks := a.memo.marks[Key(obj, term) := Dead])))
  {
    var term := RelationTerm(rel);
    var entered := Opened(memo, Key(obj, term));
    var a := Satisfies(env, ed.subject.node, RelationTerm(ed.subject.relation), depth + 1, entered);
    TermAnswer(env, obj, term, depth, memo);
    assert [ed][1..] == [] && Follow(env, term, [], depth, a.memo) == Answer(Missed, a.memo);
    assert GoalOf(env, term, ed) == Ask(ed.subject.node, RelationTerm(ed.subject.relation));
  }

  /** A marked term is missed without another look. */
  lemma MarkedIsMissed(env: Env, obj: NodeRef, rel: string, depth: nat, memo: Memo)
    requires depth <= env.maxDepth && Key(obj, RelationTerm(rel)) in memo.marks
    ensures Satisfies(env, obj, RelationTerm(rel), depth, memo) == Answer(Missed, memo)
  {
    TermAnswer(env, obj, RelationTerm(rel), depth, memo);
  }

  lemma EdgelessIsMissed(env: Env, obj: NodeRef, rel: string)
    requires rel in env.schema.relations && OutEdges(env, obj, RelationTerm(rel)) == []
    ensures var a := Satisfies(env, obj, RelationTerm(rel), 0, EMPTY_MEMO); a.out.Missed? && !a.memo.excluded
  {
    TermAnswer(env, obj, RelationTerm(rel), 0, EMPTY_MEMO);
  }

  // ---- Two groups inside each other, the first naming the caller ----

  ghost predicate Knot(env: Env, left: NodeRef, right: NodeRef, m: string) {
    && left != right && m != "" && m in env.schema.relations
    && OutEdges(env, left, RelationTerm(m)) == [Standing(left, m, SubjectRef(right, m)), Standing(left, m, SubjectRef(env.subject, ""))]
    && OutEdges(env, right, RelationTerm(m)) == [Standing(right, m, SubjectRef(left, m))]
  }

  /** While the left group is open the right one is given up, and the mark stays. */
  lemma RightGoesDead(env: Env, left: NodeRef, right: NodeRef, m: string, depth: nat, memo: Memo)
    requires Knot(env, left, right, m) && depth < env.maxDepth
    requires Key(left, RelationTerm(m)) in memo.marks && Key(right, RelationTerm(m)) !in memo.marks
    ensures Satisfies(env, right, RelationTerm(m), depth, memo)
         == Answer(Missed, memo.(marks := memo.marks[Key(right, RelationTerm(m)) := Dead]))
  {
    var term := RelationTerm(m);
    var entered := Opened(memo, Key(right, term));
    MarkedIsMissed(env, left, m, depth + 1, entered);
    Through(env, right, m, Standing(right, m, SubjectRef(left, m)), depth, memo);
    assert entered.marks[Key(right, term) := Dead] == memo.marks[Key(right, term) := Dead];
  }

  /** The left group names the caller, and leaves the right one dead. */
  lemma LeftMatches(env: Env, left: NodeRef, right: NodeRef, m: string, depth: nat, memo: Memo)
    requires Knot(env, left, right, m) && depth + 1 < env.maxDepth
    requires Key(left, RelationTerm(m)) !in memo.marks && Key(right, RelationTerm(m)) !in memo.marks
    ensures var a := Satisfies(env, left, RelationTerm(m), depth, memo);
            a.out.Matched? && a.memo == memo.(marks := memo.marks[Key(right, RelationTerm(m)) := Dead])
  {
    var term := RelationTerm(m);
    var lk, rk := Key(left, term), Key(right, term);
    var entered := Opened(memo, lk);
    var edges := OutEdges(env, left, term);
    TermAnswer(env, left, term, depth, memo);
    RightGoesDead(env, left, right, m, depth + 1, entered);
    var a := Satisfies(env, right, term, depth + 1, entered);
    assert edges[1..] == [Standing(left, m, SubjectRef(env.subject, ""))];
    assert Follow(env, term, edges[1..], depth, a.memo).out.Matched?;
    assert Follow(env, term, edges, depth, entered) == Follow(env, term, edges[1..], depth, a.memo);
    assert memo.marks[lk := Open][rk := Dead] - {lk} == memo.marks[rk := Dead];
  }

  /** Both groups hold the caller. */
  lemma KnotHolds(env: Env, left: NodeRef, right: NodeRef, m: string)
    requires Knot(env, left, right, m)
    ensures Derivable(env, left, RelationTerm(m)) && Derivable(env, right, RelationTerm(m))
  {
    var edges := OutEdges(env, left, RelationTerm(m));
    assert edges[1] in edges;
    DerivableByEdge(env, left, RelationTerm(m), edges[1]);
    DerivableByEdge(env, right, RelationTerm(m), Standing(right, m, SubjectRef(left, m)));
  }

  /** The object leads through a userset of one node to a group. */
  ghost predicate Door(env: Env, obj: NodeRef, rel: string, mid: NodeRef, h: string, group: NodeRef, m: string) {
    && obj != mid && obj != group && mid != group && h != "" && m != ""
    && {rel, h, m} <= env.schema.relations.Keys
    && OutEdges(env, obj, RelationTerm(rel)) == [Standing(obj, rel, SubjectRef(mid, h))]
    && OutEdges(env, mid, RelationTerm(h)) == [Standing(mid, h, SubjectRef(group, m))]
  }

  /** Through the left group the caller is found, and the right one is left dead. */
  lemma DoorMatches(env: Env, obj: NodeRef, rel: string, mid: NodeRef, h: string, left: NodeRef, right: NodeRef, m: string)
    requires Door(env, obj, rel, mid, h, left, m) && Knot(env, left, right, m) && env.maxDepth >= 4
    requires right != obj && right != mid
    ensures var a := Satisfies(env, obj, RelationTerm(rel), 0, EMPTY_MEMO);
            a.out.Matched? && a.memo.marks == map[Key(right, RelationTerm(m)) := Dead]
  {
    var ok, mk, rk := Key(obj, RelationTerm(rel)), Key(mid, RelationTerm(h)), Key(right, RelationTerm(m));
    var first := Opened(EMPTY_MEMO, ok);
    var second := Opened(first, mk);
    LeftMatches(env, left, right, m, 2, second);
    Through(env, mid, h, Standing(mid, h, SubjectRef(left, m)), 1, first);
    assert second.marks[rk := Dead] - {mk} == first.marks[rk := Dead];
    Through(env, obj, rel, Standing(obj, rel, SubjectRef(mid, h)), 0, EMPTY_MEMO);
    assert first.marks[rk := Dead] - {ok} == map[rk := Dead];
  }

  /** Through a group that is dead nothing is found. */
  lemma DoorMisses(env: Env, obj: NodeRef, rel: string, mid: NodeRef, h: string, group: NodeRef, m: string, memo: Memo)
    requires Door(env, obj, rel, mid, h, group, m) && env.maxDepth >= 2
    requires memo.marks == map[Key(group, RelationTerm(m)) := Dead]
    ensures Satisfies(env, obj, RelationTerm(rel), 0, memo).out.Missed?
  {
    var first := Opened(memo, Key(obj, RelationTerm(rel)));
    MarkedIsMissed(env, group, m, 2, Opened(first, Key(mid, RelationTerm(h))));
    Through(env, mid, h, Standing(mid, h, SubjectRef(group, m)), 1, first);
    Through(env, obj, rel, Standing(obj, rel, SubjectRef(mid, h)), 0, memo);
  }

  // ---- A document read through both ----

  const DOC := NodeRef("doc", "d")
  const LEFT := NodeRef("doc", "l")
  const RIGHT := NodeRef("doc", "r")
  const ANN := NodeRef("user", "a")

  /** One relation of the document leads to the left group, another to the right one. */
  function TangleAt(r1: string, r2: string, m: string, obj: NodeRef, rel: string): seq<Edge> {
    if obj == DOC && rel == r1 then [Standing(DOC, r1, SubjectRef(LEFT, m))]
    else if obj == DOC && rel == r2 then [Standing(DOC, r2, SubjectRef(RIGHT, m))]
    else if obj == LEFT && rel == m then [Standing(LEFT, m, SubjectRef(RIGHT, m)), Standing(LEFT, m, SubjectRef(ANN, ""))]
    else if obj == RIGHT && rel == m then [Standing(RIGHT, m, SubjectRef(LEFT, m))]
    else []
  }

  function Tangle(r1: string, r2: string, m: string): (NodeRef, string) -> seq<Edge> {
    (obj: NodeRef, rel: string) => TangleAt(r1, r2, m, obj, rel)
  }

  ghost predicate Tangled(env: Env, r1: string, r2: string, m: string) {
    && r1 != r2 && m != "" && {r1, r2, m} <= env.schema.relations.Keys
    && env.edges == Tangle(r1, r2, m) && env.subject == ANN && env.maxDepth >= 3
  }

  lemma TangleEdges(env: Env, r1: string, r2: string, m: string)
    requires Tangled(env, r1, r2, m)
    ensures Knot(env, LEFT, RIGHT, m)
    ensures OutEdges(env, DOC, RelationTerm(r1)) == [Standing(DOC, r1, SubjectRef(LEFT, m))]
    ensures OutEdges(env, DOC, RelationTerm(r2)) == [Standing(DOC, r2, SubjectRef(RIGHT, m))]
  {
    assert DOC.id[0] == 'd' && LEFT.id[0] == 'l' && RIGHT.id[0] == 'r' && "*"[0] == '*';
    assert env.edges(Star("doc"), r1) == [] && env.edges(Star("doc"), r2) == [] && env.edges(Star("doc"), m) == [];
  }

  lemma TangleHolds(env: Env, r1: string, r2: string, m: string)
    requires Tangled(env, r1, r2, m)
    ensures Derivable(env, DOC, RelationTerm(r1)) && Derivable(env, DOC, RelationTerm(r2))
  {
    TangleEdges(env, r1, r2, m);
    KnotHolds(env, LEFT, RIGHT, m);
    DerivableByEdge(env, DOC, RelationTerm(r1), Standing(DOC, r1, SubjectRef(LEFT, m)));
    DerivableByEdge(env, DOC, RelationTerm(r2), Standing(DOC, r2, SubjectRef(RIGHT, m)));
  }

  /** The first relation matches; the second then misses, though it holds. */
  lemma FirstMatchesSecondMisses(env: Env, r1: string, r2: string, m: string)
    requires Tangled(env, r1, r2, m)
    ensures var a := Satisfies(env, DOC, RelationTerm(r1), 0, EMPTY_MEMO);
            a.out.Matched? && Satisfies(env, DOC, RelationTerm(r2), 0, a.memo).out.Missed?
            && !Satisfies(env, DOC, RelationTerm(r2), 0, a.memo).memo.excluded
  {
    var rk := Key(RIGHT, RelationTerm(m));
    var entered := Opened(EMPTY_MEMO, Key(DOC, RelationTerm(r1)));
    assert DOC.id[0] == 'd' && LEFT.id[0] == 'l' && RIGHT.id[0] == 'r';
    TangleEdges(env, r1, r2, m);
    LeftMatches(env, LEFT, RIGHT, m, 1, entered);
    Through(env, DOC, r1, Standing(DOC, r1, SubjectRef(LEFT, m)), 0, EMPTY_MEMO);
    var a := Satisfies(env, DOC, RelationTerm(r1), 0, EMPTY_MEMO);
    assert a.memo.marks == map[rk := Dead];
    MarkedIsMissed(env, RIGHT, m, 1, Opened(a.memo, Key(DOC, RelationTerm(r2))));
    Through(env, DOC, r2, Standing(DOC, r2, SubjectRef(RIGHT, m)), 0, a.memo);
  }

  function Both(r1: string, r2: string): Expr {
    Intersect([RelationTerm(r1), RelationTerm(r2)])
  }

  function But(r1: string, r2: string): Expr {
    Exclude(RelationTerm(r1), RelationTerm(r2))
  }

  lemma PairMeant(env: Env, obj: NodeRef, r1: string, r2: string)
    ensures Meant(env, obj, Both(r1, r2)) <==> Derivable(env, obj, RelationTerm(r1)) && Derivable(env, obj, RelationTerm(r2))
    ensures Meant(env, obj, But(r1, r2)) <==> Derivable(env, obj, RelationTerm(r1)) && !Derivable(env, obj, RelationTerm(r2))
  {
    var terms := Both(r1, r2).terms;
    MeantUnfolds(env, obj, Both(r1, r2));
    MeantUnfolds(env, obj, But(r1, r2));
    RelationMeant(env, obj, r1);
    RelationMeant(env, obj, r2);
    assert terms[0] == RelationTerm(r1) && terms[1] == RelationTerm(r2);
    assert forall t :: t in terms <==> t == terms[0] || t == terms[1];
  }

  /** The walk misses the intersection, which holds, and matches the subtraction, which does not. */
  lemma TangleMisleads(env: Env, r1: string, r2: string, m: string)
    requires Tangled(env, r1, r2, m)
    ensures var both := Satisfies(env, DOC, Both(r1, r2), 0, EMPTY_MEMO);
            both.out.Missed? && !both.memo.excluded && Meant(env, DOC, Both(r1, r2))
    ensures Satisfies(env, DOC, But(r1, r2), 0, EMPTY_MEMO).out.Matched? && !Meant(env, DOC, But(r1, r2))
  {
    FirstMatchesSecondMisses(env, r1, r2, m);
    TangleHolds(env, r1, r2, m);
    PairMeant(env, DOC, r1, r2);
    var terms := Both(r1, r2).terms;
    var a := Satisfies(env, DOC, terms[0], 0, EMPTY_MEMO);
    assert terms[1..] == [RelationTerm(r2)];
    assert AllOf(env, DOC, terms[1..], 0, a.memo).out.Missed?;
    assert AllOf(env, DOC, terms, 0, EMPTY_MEMO) == AllOf(env, DOC, terms[1..], 0, a.memo);
  }

  // ---- Exactly which pairs of relations are safe on all data ----

  /** On every resolver, caller and bound a walk that does not fail computes the set meaning. */
  ghost predicate AlwaysExact(schema: Schema, expr: Expr) {
    forall env: Env, obj: NodeRef :: env.schema == schema ==> DecidesThere(env, obj, expr)
  }

  ghost predicate DecidesThere(env: Env, obj: NodeRef, expr: Expr) {
    var r := Satisfies(env, obj, expr, 0, EMPTY_MEMO);
    !r.out.Failed? ==> (r.out.Matched? <==> Meant(env, obj, expr))
  }

  /** A relation that matched matches again from the memo its match left. */
  lemma {:induction false} MatchesAgain(env: Env, obj: NodeRef, rel: string, depth: nat, memo: Memo)
    requires Satisfies(env, obj, RelationTerm(rel), depth, memo).out.Matched?
    ensures var r := Satisfies(env, obj, RelationTerm(rel), depth, memo);
            Satisfies(env, obj, RelationTerm(rel), depth, r.memo) == r
    decreases 2 * (if depth <= env.maxDepth then env.maxDepth - depth else 0) + 1, 1
  {
    var term := RelationTerm(rel);
    var key := Key(obj, term);
    var entered := Opened(memo, key);
    TermAnswer(env, obj, term, depth, memo);
    var body := Follow(env, term, OutEdges(env, obj, term), depth, entered);
    var r := Satisfies(env, obj, term, depth, memo);
    OpenStaysOpen(env, term, OutEdges(env, obj, term), depth, entered, key);
    FollowsAgain(env, term, OutEdges(env, obj, term), depth, entered);
    assert Opened(r.memo, key).marks == body.memo.marks;
    TermAnswer(env, obj, term, depth, r.memo);
  }

  lemma {:induction false} FollowsAgain(env: Env, term: Expr, edges: seq<Edge>, depth: nat, memo: Memo)
    requires term.RelationTerm? && Declared(env, term) && depth <= env.maxDepth
    requires Follow(env, term, edges, depth, memo).out.Matched?
    ensures var r := Follow(env, term, edges, depth, memo);
            Follow(env, term, edges, depth, r.memo) == r
    decreases 2 * (env.maxDepth - depth) + 1, 0, |edges|
  {
    var ed := edges[0];
    var r := Follow(env, term, edges, depth, memo);
    if !ed.Active(env.now) {
      FollowsAgain(env, term, edges[1..], depth, memo);
    } else {
      var g := GoalOf(env, term, ed);
      if g.Nothing? {
        FollowsAgain(env, term, edges[1..], depth, memo);
      } else if g.Ask? {
        var a := Satisfies(env, g.node, g.term, depth + 1, memo);
        if a.out.Matched? {
          MatchesAgain(env, g.node, g.term.relation, depth + 1, memo);
        } else {
          FollowsAgain(env, term, edges[1..], depth, a.memo);
          MissedIsMarked(env, g.node, g.term.relation, depth + 1, memo);
          MarkedIsMissed(env, g.node, g.term.relation, depth + 1, r.memo);
        }
      }
    }
  }

  lemma MissedIsMarked(env: Env, obj: NodeRef, rel: string, depth: nat, memo: Memo)
    requires Satisfies(env, obj, RelationTerm(rel), depth, memo).out.Missed?
    ensures depth <= env.maxDepth
    ensures Key(obj, RelationTerm(rel)) in Satisfies(env, obj, RelationTerm(rel), depth, memo).memo.marks
  {
    TermAnswer(env, obj, RelationTerm(rel), depth, memo);
  }

  /** A term in progress stays in progress until its own call ends. */
  lemma {:induction false} OpenStaysOpen(env: Env, term: Expr, edges: seq<Edge>, depth: nat, memo: Memo, key: Key)
    requires term.RelationTerm? && Declared(env, term) && depth <= env.maxDepth
    requires key in memo.marks
    ensures var r := Follow(env, term, edges, depth, memo);
            key in r.memo.marks && r.memo.marks[key] == memo.marks[key]
    decreases 2 * (env.maxDepth - depth) + 1, 0, |edges|
  {
    if edges == [] { return; }
    var ed := edges[0];
    var mid := memo;
    if ed.Active(env.now) {
      var g := GoalOf(env, term, ed);
      if g.Here? { return; }
      if g.Ask? {
        OpenStaysOpenBelow(env, g.node, g.term, depth + 1, memo, key);
        var a := Satisfies(env, g.node, g.term, depth + 1, memo);
        if !a.out.Missed? { return; }
        mid := a.memo;
      }
    }
    OpenStaysOpen(env, term, edges[1..], depth, mid, key);
  }

  lemma {:induction false} OpenStaysOpenBelow(env: Env, obj: NodeRef, term: Expr, depth: nat, memo: Memo, key: Key)
    requires term.RelationTerm? && key in memo.marks
    ensures var r := Satisfies(env, obj, term, depth, memo);
            key in r.memo.marks && r.memo.marks[key] == memo.marks[key]
    decreases Room(env, depth), 1
  {
    if depth <= env.maxDepth {
      TermAnswer(env, obj, term, depth, memo);
      var entered := Opened(memo, Key(obj, term));
      if Key(obj, term) !in memo.marks && Declared(env, term) {
        OpenStaysOpen(env, term, OutEdges(env, obj, term), depth, entered, key);
      }
    }
  }

  /** A relation with itself: the second look answers as the first. */
  lemma SameRelationDecides(env: Env, obj: NodeRef, rel: string)
    ensures DecidesThere(env, obj, Both(rel, rel)) && DecidesThere(env, obj, But(rel, rel))
  {
    var term := RelationTerm(rel);
    var a := Satisfies(env, obj, term, 0, EMPTY_MEMO);
    var terms := Both(rel, rel).terms;
    assert terms[1..] == [term] && terms[1..][1..] == [];
    assert AllOf(env, obj, [], 0, a.memo) == Answer(Matched([]), a.memo);
    if a.out.Matched? {
      MatchesAgain(env, obj, rel, 0, EMPTY_MEMO);
      MatchIsDerivable(env, obj, term, 0, EMPTY_MEMO);
      assert AllOf(env, obj, terms[1..], 0, a.memo).out.Matched?;
    } else if a.out.Missed? {
      RelationMissIsUnderivable(env, obj, rel);
    }
    PairMeant(env, obj, rel, rel);
    assert Satisfies(env, obj, Both(rel, rel), 0, EMPTY_MEMO) == AllOf(env, obj, terms, 0, EMPTY_MEMO);
  }

  lemma RelationMissIsUnderivable(env: Env, obj: NodeRef, rel: string)
    requires Satisfies(env, obj, RelationTerm(rel), 0, EMPTY_MEMO).out.Missed?
    ensures !Derivable(env, obj, RelationTerm(rel))
  {
    Exactness.MissIsUnderivable(env, iset{}, obj, RelationTerm(rel), 0, EMPTY_MEMO);
  }

  /**
   * `a & b` and `a - b` over two declared relations are computed correctly on all
   * data exactly when the two are the same relation: any two different ones can be
   * tied into a knot the memo misjudges.
   */
  lemma PairIsExactIff(schema: Schema, r1: string, r2: string)
    requires r1 in schema.relations && r2 in schema.relations
    ensures AlwaysExact(schema, Both(r1, r2)) <==> r1 == r2
    ensures AlwaysExact(schema, But(r1, r2)) <==> r1 == r2
  {
    if r1 == r2 {
      forall env: Env, obj: NodeRef | env.schema == schema
        ensures DecidesThere(env, obj, Both(r1, r2)) && DecidesThere(env, obj, But(r1, r2))
      {
        SameRelationDecides(env, obj, r1);
      }
    } else {
      var m := if r1 != "" then r1 else r2;
      var env := Env(schema, Tangle(r1, r2, m), ANN, 0, 3);
      TangleMisleads(env, r1, r2, m);
      assert !DecidesThere(env, DOC, Both(r1, r2)) && !DecidesThere(env, DOC, But(r1, r2));
    }
  }

  // ---- The same in the answers of Check, over a validated schema and writable edges ----

  /** Documents carry two relations, each open to users and to whoever holds the first on a document. */
  function PairSchema(r1: string, r2: string, rule: Expr): Schema {
    var targets := [TargetSpec("user", ""), TargetSpec("doc", r1)];
    Schema(
      "pair",
      ["read"],
      map[r1 := RelationDef(r1, false, WildcardNone), r2 := RelationDef(r2, false, WildcardNone)],
      map["user" := TypeDef("user", map[], map[]),
          "doc" := TypeDef("doc", map[r1 := targets, r2 := targets], map["read" := rule])])
  }

  function PairStore(r1: string, r2: string, rule: Expr, maxDepth: nat): Evaluator {
    Evaluator(PairSchema(r1, r2, rule), Tangle(r1, r2, r1), maxDepth)
  }

  const ASK := Request(ANN, "read", DOC)

  lemma PairNames()
    ensures Text.ValidIdent("user") && Text.ValidIdent("doc") && Text.ValidIdent("read") && !Text.Blank("pair") && "user" != "doc"
    ensures ANN.Valid() && DOC.Valid() && !LEFT.IsWildcard() && !RIGHT.IsWildcard() && !DOC.IsWildcard() && !ANN.IsWildcard()
  {
    assert "user"[0] == 'u' && "doc"[0] == 'd' && "pair"[0] == 'p' && "*"[0] == '*';
    assert ANN.id[0] == 'a' && DOC.id[0] == 'd' && LEFT.id[0] == 'l' && RIGHT.id[0] == 'r';
  }

  lemma PairSchemaIsValid(r1: string, r2: string, rule: Expr)
    requires Text.ValidIdent(r1) && Text.ValidIdent(r2) && (rule == Both(r1, r2) || rule == But(r1, r2) || rule == RelationTerm(r1))
    ensures ValidSchema(PairSchema(r1, r2, rule))
  {
    PairNames();
    var schema := PairSchema(r1, r2, rule);
    var doc := schema.types["doc"];
    assert ValidTarget(schema, TargetSpec("user", "")) && ValidTarget(schema, TargetSpec("doc", r1));
    assert ValidRelations(schema, doc) && ValidRelations(schema, schema.types["user"]);
    PairRuleIsValid(schema, doc, r1, r2, rule);
    assert ValidRules(schema, doc) && ValidRules(schema, schema.types["user"]);
  }

  lemma PairRuleIsValid(schema: Schema, doc: TypeDef, r1: string, r2: string, rule: Expr)
    requires rule == Both(r1, r2) || rule == But(r1, r2) || rule == RelationTerm(r1)
    requires r1 in doc.relations && r2 in doc.relations && doc.rules == map["read" := rule]
    ensures ValidExpr(schema, doc, rule) && CycleFree(doc, "read", {})
  {
    var seen := {} + {"read"};
    assert ExprCycleFree(doc, RelationTerm(r1), seen) && ExprCycleFree(doc, RelationTerm(r2), seen);
    assert ExprCycleFree(doc, rule, seen);
  }

  lemma PairStoreIsWritable(r1: string, r2: string, rule: Expr, maxDepth: nat)
    ensures Delegation.WritableStore(PairStore(r1, r2, rule, maxDepth))
  {
    var e := PairStore(r1, r2, rule, maxDepth);
    forall obj: NodeRef, rel: string, ed | ed in e.edges(obj, rel)
      ensures ed.obj == obj && ed.relation == rel && Writable(e.schema, ed)
    {
      assert ed in TangleAt(r1, r2, r1, obj, rel);
      PairNames();
      PairEdgeIsWritable(r1, r2, rule, ed);
    }
  }

  lemma PairEdgeIsWritable(r1: string, r2: string, rule: Expr, ed: Edge)
    requires ed.obj.typ == "doc" && !ed.obj.IsWildcard() && (ed.relation == r1 || ed.relation == r2)
    requires ed.subject == SubjectRef(LEFT, r1) || ed.subject == SubjectRef(RIGHT, r1) || ed.subject == SubjectRef(ANN, "")
    ensures Writable(PairSchema(r1, r2, rule), ed)
  {
    PairNames();
    var targets := PairSchema(r1, r2, rule).types["doc"].relations[ed.relation];
    assert targets[0] == TargetSpec("user", "") && targets[1] == TargetSpec("doc", r1);
    assert TargetAllows(targets[1], ed.subject) || TargetAllows(targets[0], ed.subject);
  }

  /** What a decision says of a rule is what a fresh run of it says. */
  lemma AllowedIsMatched(e: Evaluator, req: Request, now: int)
    ensures var r := CheckSpec(e, req, now);
            r.Ok? ==>
              if e.schema.HasRule(req.resource.typ, req.action) then
                var a := AskRule(EnvOf(e, req.subject, now), req.resource, req.action);
                !a.out.Failed? && (r.value.allowed <==> a.out.Matched?)
              else !r.value.allowed
  {
  }

  /**
   * A validated schema and writable edges on which Check answers "unreachable"
   * though the caller holds both relations of the rule.
   */
  lemma CheckMissesAnIntersection(r1: string, r2: string, maxDepth: nat, now: int)
    requires Text.ValidIdent(r1) && Text.ValidIdent(r2) && r1 != r2 && maxDepth >= 3
    ensures var e := PairStore(r1, r2, Both(r1, r2), maxDepth);
            && ValidSchema(e.schema) && Delegation.WritableStore(e)
            && CheckSpec(e, ASK, now) == Ok(Decision(false, ReasonUnreachable, []))
            && Meant(EnvOf(e, ANN, now), DOC, e.schema.Rule("doc", "read"))
  {
    var e := PairStore(r1, r2, Both(r1, r2), maxDepth);
    PairNames();
    PairSchemaIsValid(r1, r2, Both(r1, r2));
    PairStoreIsWritable(r1, r2, Both(r1, r2), maxDepth);
    TangleMisleads(EnvOf(e, ANN, now), r1, r2, r1);
    NoOtherActions(r1, r2, Both(r1, r2));
    assert ReachedBy(EnvOf(e, ANN, now), DOC, []) == Ok(false);
  }

  /** And one on which Check allows what the rule subtracts. */
  lemma CheckMissesASubtraction(r1: string, r2: string, maxDepth: nat, now: int)
    requires Text.ValidIdent(r1) && Text.ValidIdent(r2) && r1 != r2 && maxDepth >= 3
    ensures var e := PairStore(r1, r2, But(r1, r2), maxDepth);
            && ValidSchema(e.schema) && Delegation.WritableStore(e)
            && CheckSpec(e, ASK, now).Ok? && CheckSpec(e, ASK, now).value.allowed
            && !Meant(EnvOf(e, ANN, now), DOC, e.schema.Rule("doc", "read"))
  {
    PairNames();
    PairSchemaIsValid(r1, r2, But(r1, r2));
    PairStoreIsWritable(r1, r2, But(r1, r2), maxDepth);
    TangleMisleads(EnvOf(PairStore(r1, r2, But(r1, r2), maxDepth), ANN, now), r1, r2, r1);
  }

  lemma NoOtherActions(r1: string, r2: string, rule: Expr)
    ensures OtherActions(PairSchema(r1, r2, rule), "doc", "read") == []
  {
    var xs := OtherActions(PairSchema(r1, r2, rule), "doc", "read");
    PairNames();
    assert Sorting.Elements(xs) == {};
    if xs != [] {
      Sorting.HeadIsElement(xs);
    }
  }

  /** The document carries the caller under the second relation only. */
  function Beside(r2: string): (NodeRef, string) -> seq<Edge> {
    (obj: NodeRef, rel: string) => if obj == DOC && rel == r2 then [Standing(DOC, r2, SubjectRef(ANN, ""))] else []
  }

  function BesideStore(r1: string, r2: string, maxDepth: nat): Evaluator {
    Evaluator(PairSchema(r1, r2, RelationTerm(r1)), Beside(r2), maxDepth)
  }

  lemma BesideIsWritable(r1: string, r2: string, maxDepth: nat)
    ensures Delegation.WritableStore(BesideStore(r1, r2, maxDepth))
  {
    PairNames();
    PairEdgeIsWritable(r1, r2, RelationTerm(r1), Standing(DOC, r2, SubjectRef(ANN, "")));
  }

  lemma BesideIsMissed(env: Env, r1: string, r2: string)
    requires env.schema == PairSchema(r1, r2, RelationTerm(r1)) && env.edges == Beside(r2) && r1 != r2
    ensures var a := AskRule(env, DOC, "read"); a.out.Missed? && !a.memo.excluded
    ensures ReachedBy(env, DOC, OtherActions(env.schema, "doc", "read")) == Ok(false)
  {
    PairNames();
    NoOtherActions(r1, r2, RelationTerm(r1));
    assert OutEdges(env, DOC, RelationTerm(r1)) == [];
    EdgelessIsMissed(env, DOC, r1);
  }

  /**
   * "Unreachable" does not mean that no path reaches the resource: an edge of the
   * resource names the caller, under a relation no rule reads.
   */
  lemma UnreadEdgeIsUnreachable(r1: string, r2: string, maxDepth: nat, now: int)
    requires Text.ValidIdent(r1) && Text.ValidIdent(r2) && r1 != r2
    ensures var e := BesideStore(r1, r2, maxDepth);
            && ValidSchema(e.schema) && Delegation.WritableStore(e)
            && e.edges(DOC, r2) == [Standing(DOC, r2, SubjectRef(ANN, ""))]
            && CheckSpec(e, ASK, now) == Ok(Decision(false, ReasonUnreachable, []))
  {
    PairNames();
    PairSchemaIsValid(r1, r2, RelationTerm(r1));
    BesideIsWritable(r1, r2, maxDepth);
    BesideIsMissed(EnvOf(BesideStore(r1, r2, maxDepth), ANN, now), r1, r2);
  }

  /** Over every store of writable edges, a check that returns answers what the rule means. */
  ghost predicate ExactOnWritable(schema: Schema) {
    forall e: Evaluator, req: Request, now: int :: e.schema == schema && Delegation.WritableStore(e) ==> CheckIsExact(e, req, now)
  }

  ghost predicate CheckIsExact(e: Evaluator, req: Request, now: int) {
    var r := CheckSpec(e, req, now);
    r.Ok? ==> (r.value.allowed <==>
      e.schema.HasRule(req.resource.typ, req.action) && Meant(EnvOf(e, req.subject, now), req.resource, e.schema.Rule(req.resource.typ, req.action)))
  }

  /** Which rules over two relations Check decides on all writable edges of such a schema. */
  lemma CheckedPairIsExactIff(r1: string, r2: string)
    requires Text.ValidIdent(r1) && Text.ValidIdent(r2)
    ensures ExactOnWritable(PairSchema(r1, r2, Both(r1, r2))) <==> r1 == r2
    ensures ExactOnWritable(PairSchema(r1, r2, But(r1, r2))) <==> r1 == r2
  {
    if r1 != r2 {
      CheckMissesAnIntersection(r1, r2, 3, 0);
      CheckMissesASubtraction(r1, r2, 3, 0);
      assert !CheckIsExact(PairStore(r1, r2, Both(r1, r2), 3), ASK, 0);
      assert !CheckIsExact(PairStore(r1, r2, But(r1, r2), 3), ASK, 0);
    } else {
      SamePairIsExact(r1, Both(r1, r1));
      SamePairIsExact(r1, But(r1, r1));
    }
  }

  lemma SamePairIsExact(r: string, rule: Expr)
    requires rule == Both(r, r) || rule == But(r, r)
    ensures ExactOnWritable(PairSchema(r, r, rule))
  {
    forall e: Evaluator, req: Request, now: int | e.schema == PairSchema(r, r, rule) ensures CheckIsExact(e, req, now) {
      SameRelationDecides(EnvOf(e, req.subject, now), req.resource, r);
      AllowedIsMatched(e, req, now);
      if e.schema.HasRule(req.resource.typ, req.action) {
        OnlyRule(r, rule, req.resource.typ, req.action);
      }
    }
  }

  lemma OnlyRule(r: string, rule: Expr, typ: string, action: string)
    requires PairSchema(r, r, rule).HasRule(typ, action)
    ensures PairSchema(r, r, rule).Rule(typ, action) == rule
  {
    PairNames();
  }
}
