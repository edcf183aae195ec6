/**
 * One evaluation as the source performs it: an object whose methods update the
 * memo and the excluded flag in place (core/reach/walk.go:187-417). Each method
 * ends in the answer and the memo that module Walk computes from the old memo.
 */
module Runs {
  import opened Graph
  import opened Schemas
  import opened Walk

  class Run {
    const env: Env
    var state: map<Key, Mark>
    var excluded: bool

    function Memory(): Memo
      reads this
    {
      Memo(state, excluded)
    }

    constructor (env: Env)
      ensures this.env == env && Memory() == EMPTY_MEMO
    {
      this.env := env;
      state := map[];
      excluded := false;
    }

    method Satisfies(obj: NodeRef, expr: Expr, depth: nat) returns (out: Outcome)
      modifies this
      ensures Answer(out, Memory()) == Walk.Satisfies(env, obj, expr, depth, old(Memory()))
      decreases Room(env, depth), Unentered(env, obj, Memory()), expr, 2
    {
      if depth > env.maxDepth {
        return Failed(DepthExceeded(obj));
      }
      match expr
      case RelationTerm(_) => out := Memoised(obj, expr, depth);
      case RuleTerm(_) => out := Memoised(obj, expr, depth);
      case ArrowTerm(_, _) => out := Memoised(obj, expr, depth);
      case Union(terms) =>
        ghost var whole := AnyOf(env, obj, terms, depth, Memory());
        for i := 0 to |terms|
          invariant old(state).Keys <= state.Keys
          invariant AnyOf(env, obj, terms[i..], depth, Memory()) == whole
        {
          out := Satisfies(obj, terms[i], depth);
          if !out.Missed? { return; }
          assert terms[i..][1..] == terms[i + 1..];
        }
        out := Missed;
      case Intersect(terms) =>
        ghost var whole := AllOf(env, obj, terms, depth, Memory());
        var path: seq<Step> := [];
        for i := 0 to |terms|
          invariant old(state).Keys <= state.Keys
          invariant Prefixed(path, AllOf(env, obj, terms[i..], depth, Memory())) == whole
        {
          out := Satisfies(obj, terms[i], depth);
          if !out.Matched? { return; }
          assert terms[i..][1..] == terms[i + 1..];
          ghost var rest := AllOf(env, obj, terms[i + 1..], depth, Memory());
          if rest.out.Matched? {
            assert path + (out.path + rest.out.path) == (path + out.path) + rest.out.path;
          }
          path := path + out.path;
        }
        out := Matched(path);
      case Exclude(base, subtract) =>
        out := Satisfies(obj, base, depth);
        if !out.Matched? { return; }
        var removed := Satisfies(obj, subtract, depth);
        if removed.Failed? {
          return removed;
        }
        if removed.Matched? {
          excluded := true;
          out := Missed;
        }
      case IdentTerm(_) => out := Failed(UnknownExpression);
    }

    method Memoised(obj: NodeRef, term: Expr, depth: nat) returns (out: Outcome)
      requires term.RelationTerm? || term.RuleTerm? || term.ArrowTerm?
      requires depth <= env.maxDepth
      modifies this
      ensures Answer(out, Memory()) == Walk.Satisfies(env, obj, term, depth, old(Memory()))
      decreases Room(env, depth), Unentered(env, obj, Memory()), term, 1
    {
      var key := Key(obj, term);
      ghost var before := Memory();
      TermAnswer(env, obj, term, depth, before);
      if key in state {
        out := Missed;
      } else {
        state := state[key := Open];
        assert Memory() == Opened(before, key);
        match term {
          case RelationTerm(rel) => out := Relation(obj, rel, depth);
          case RuleTerm(action) => out := Rule(obj, action, depth);
          case ArrowTerm(rel, target) => out := Arrow(obj, rel, target, depth);
        }
        ghost var body := Answer(out, Memory());
        if out.Matched? {
          state := state - {key};
        } else if out.Missed? {
          state := state[key := Dead];
        }
        assert Answer(out, Memory()) == Remember(key, before, body);
      }
    }

    method Relation(obj: NodeRef, rel: string, depth: nat) returns (out: Outcome)
      requires Key(obj, RelationTerm(rel)) in state
      requires depth <= env.maxDepth
      modifies this
      ensures Answer(out, Memory()) ==
              if Declared(env, RelationTerm(rel)) then Follow(env, RelationTerm(rel), OutEdges(env, obj, RelationTerm(rel)), depth, old(Memory()))
              else Answer(Missed, old(Memory()))
      decreases 2 * (env.maxDepth - depth) + 1, 0
    {
      if rel !in env.schema.relations {
        return Missed;
      }
      ghost var term := RelationTerm(rel);
      var def := env.schema.relations[rel];
      var edges := EdgesFor(env, obj, rel, def);
      ghost var whole := Follow(env, term, edges, depth, Memory());
      for i := 0 to |edges|
        invariant Follow(env, term, edges[i..], depth, Memory()) == whole
      {
        var ed := edges[i];
        assert edges[i..][1..] == edges[i + 1..];
        if !ed.Active(env.now) { continue; }
        var step := StepOf(ed);
        if ed.subject.IsUserset() {
          out := Satisfies(ed.subject.node, RelationTerm(ed.subject.relation), depth + 1);
          if out.Failed? { return; }
          if out.Matched? {
            return Matched([step] + out.path);
          }
          continue;
        }
        if MatchesSubject(env, ed.subject.node, def) {
          return Matched([step]);
        }
        if def.transitive {
          out := Satisfies(ed.subject.node, RelationTerm(rel), depth + 1);
          if out.Failed? { return; }
          if out.Matched? {
            return Matched([step] + out.path);
          }
        }
      }
      out := Missed;
    }

    method Arrow(obj: NodeRef, rel: string, target: string, depth: nat) returns (out: Outcome)
      requires Key(obj, ArrowTerm(rel, target)) in state
      requires depth <= env.maxDepth
      modifies this
      ensures Answer(out, Memory()) ==
              if Declared(env, ArrowTerm(rel, target)) then Follow(env, ArrowTerm(rel, target), OutEdges(env, obj, ArrowTerm(rel, target)), depth, old(Memory()))
              else Answer(Missed, old(Memory()))
      decreases 2 * (env.maxDepth - depth) + 1, 0
    {
      if rel !in env.schema.relations {
        return Missed;
      }
      ghost var term := ArrowTerm(rel, target);
      var edges := EdgesFor(env, obj, rel, env.schema.relations[rel]);
      ghost var whole := Follow(env, term, edges, depth, Memory());
      for i := 0 to |edges|
        invariant Follow(env, term, edges[i..], depth, Memory()) == whole
      {
        var ed := edges[i];
        assert edges[i..][1..] == edges[i + 1..];
        if !ed.Active(env.now) { continue; }
        var far := RelationTerm(target);
        if ed.subject.node.typ in env.schema.types {
          if target in env.schema.types[ed.subject.node.typ].rules {
            far := RuleTerm(target);
          }
        }
        out := Satisfies(ed.subject.node, far, depth + 1);
        if out.Failed? { return; }
        if out.Matched? {
          return Matched([StepOf(ed)] + out.path);
        }
      }
      out := Missed;
    }

    method Rule(obj: NodeRef, action: string, depth: nat) returns (out: Outcome)
      requires Key(obj, RuleTerm(action)) in state
      requires depth <= env.maxDepth
      modifies this
      ensures Answer(out, Memory()) ==
              if env.schema.HasRule(obj.typ, action) then Walk.Satisfies(env, obj, env.schema.Rule(obj.typ, action), depth, old(Memory()))
              else Answer(Missed, old(Memory()))
      decreases Room(env, depth), Unentered(env, obj, Memory()) + (if env.schema.HasRule(obj.typ, action) then {action} else {}), RuleTerm(action), 0
    {
      if obj.typ !in env.schema.types {
        return Missed;
      }
      if action !in env.schema.types[obj.typ].rules {
        return Missed;
      }
      out := Satisfies(obj, env.schema.types[obj.typ].rules[action], depth);
    }
  }

  /** The answer of the remaining terms of an intersection, with the path gathered so far in front. */
  ghost function Prefixed(path: seq<Step>, rest: Answer): Answer {
    if rest.out.Matched? then Answer(Matched(path + rest.out.path), rest.memo) else rest
  }
}
