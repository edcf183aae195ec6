/**
 * Running an action workflow: a graph walk with success and error edges, pause
 * and resume (core/automations/workflow.go:56-204).
 */
module Workflow {
  import opened Wrappers
  import opened Sorting
  import Text
  import Levels

  const MAX_WORKFLOW_STEPS: nat := 64

  /** An action as the walk sees it; params are the runner's business. */
  datatype Action = Action(id: string, typ: string, onSuccess: string, onError: string)

  type Table = map<string, Action>

  datatype Verdict = Succeeded | Broke(error: string) | PausedHere

  datatype RunResult = RunResult(detail: string, verdict: Verdict)

  /** What runs an action, given the ids of the actions run before it in this workflow. */
  type Runner = (seq<string>, Action) -> RunResult

  datatype RunError =
    | NoActions
    | UnknownStart(id: string)
    | CycleAt(id: string)
    | UnknownAction(id: string)
    | ActionPaused
    | ActionFailed(error: string)
    | TooManySteps

  /** The ids executed, the details gathered and the terminal error. */
  datatype Report = Report(executed: seq<string>, details: seq<string>, error: Option<RunError>)

  /** The actions under the given ids; a later action replaces an earlier one. */
  function TableBy(ids: seq<string>, actions: seq<Action>): Table
    requires |ids| == |actions|
  {
    if actions == [] then map[]
    else TableBy(ids[..|ids| - 1], actions[..|actions| - 1])[ids[|ids| - 1] := actions[|actions| - 1]]
  }

  lemma TableSnoc(ids: seq<string>, actions: seq<Action>, i: nat)
    requires |ids| == |actions| && i < |ids|
    ensures TableBy(ids[..i + 1], actions[..i + 1]) == TableBy(ids[..i], actions[..i])[ids[i] := actions[i]]
  {
    assert actions[..i + 1][..i] == actions[..i] && ids[..i + 1][..i] == ids[..i];
  }

  function Ids(actions: seq<Action>): (ids: seq<string>)
    ensures |ids| == |actions|
    ensures forall i :: 0 <= i < |ids| ==> ids[i] == actions[i].id
  {
    seq(|actions|, i requires 0 <= i < |actions| => actions[i].id)
  }

  function TableOf(actions: seq<Action>): Table {
    TableBy(Ids(actions), actions)
  }

  function Note(details: seq<string>, detail: string): seq<string> {
    if detail != "" then details + [detail] else details
  }

  /** The walk from `cur`, after `done` has been executed in this run. */
  function Walk(byID: Table, run: Runner, cur: string, done: seq<string>): Report
    decreases MAX_WORKFLOW_STEPS - |done|
  {
    if cur == "" then Report([], [], None)
    else if |done| >= MAX_WORKFLOW_STEPS then Report([], [], Some(TooManySteps))
    else if cur in done then Report([], [], Some(CycleAt(cur)))
    else if cur !in byID then Report([], [], Some(UnknownAction(cur)))
    else
      var a := byID[cur];
      var r := run(done, a);
      match r.verdict
      case PausedHere => Report([cur], Note([], r.detail), Some(ActionPaused))
      case Succeeded => Then(cur, Note([], r.detail), Walk(byID, run, a.onSuccess, done + [cur]))
      case Broke(error) =>
        if a.onError == "" then Report([cur], Note([], r.detail), Some(ActionFailed(error)))
        else Then(cur, Note([], r.detail) + [a.id + ":error→" + a.onError], Walk(byID, run, a.onError, done + [cur]))
  }

  function Then(id: string, details: seq<string>, rest: Report): Report {
    Report([id] + rest.executed, details + rest.details, rest.error)
  }

  /** Where a run starts: the trimmed id, or the first action when it is blank. */
  function StartOf(actions: seq<Action>, startID: string): string
    requires actions != []
  {
    if Text.Trim(startID) == "" then actions[0].id else Text.Trim(startID)
  }

  function RunFrom(actions: seq<Action>, startID: string, run: Runner): Report {
    if actions == [] then Report([], [], Some(NoActions))
    else
      var start := StartOf(actions, startID);
      if start !in TableOf(actions) then Report([], [], Some(UnknownStart(start)))
      else Walk(TableOf(actions), run, start, [])
  }

  /** A report with what came before it in front. */
  function After(executed: seq<string>, details: seq<string>, rest: Report): Report {
    Report(executed + rest.executed, details + rest.details, rest.error)
  }

  method RunActionGraph(actions: seq<Action>, run: Runner) returns (report: Report)
    ensures report == if actions == [] then Report([], [], Some(NoActions)) else RunFrom(actions, actions[0].id, run)
  {
    if actions == [] {
      return Report([], [], Some(NoActions));
    }
    report := RunActionGraphFrom(actions, actions[0].id, run);
  }

  method IndexActions(actions: seq<Action>) returns (byID: Table)
    ensures byID == TableOf(actions)
  {
    byID := map[];
    ghost var ids := Ids(actions);
    for i := 0 to |actions|
      invariant byID == TableBy(ids[..i], actions[..i])
    {
      TableSnoc(ids, actions, i);
      byID := byID[actions[i].id := actions[i]];
    }
    assert actions[..|actions|] == actions && ids[..|ids|] == ids;
  }

  method RunActionGraphFrom(actions: seq<Action>, startID: string, run: Runner) returns (report: Report)
    ensures report == RunFrom(actions, startID, run)
  {
    if actions == [] {
      return Report([], [], Some(NoActions));
    }
    var start := StartOf(actions, startID);
    var byID := IndexActions(actions);
    if start !in byID {
      return Report([], [], Some(UnknownStart(start)));
    }
    report := WalkActions(byID, start, run);
  }

  method WalkActions(byID: Table, start: string, run: Runner) returns (report: Report)
    ensures report == Walk(byID, run, start, [])
  {
    var cur := start;
    var details: seq<string> := [];
    var visited: set<string> := {};
    var order: seq<string> := [];
    var steps := 0;
    assert After([], [], Walk(byID, run, start, [])) == Walk(byID, run, start, []);
    while cur != "" && steps < MAX_WORKFLOW_STEPS
      invariant 0 <= steps == |order| <= MAX_WORKFLOW_STEPS
      invariant forall id :: id in visited <==> id in order
      invariant After(order, details, Walk(byID, run, cur, order)) == Walk(byID, run, start, [])
    {
      if cur in visited {
        return Report(order, details, Some(CycleAt(cur)));
      }
      visited := visited + {cur};
      if cur !in byID {
        return Report(order, details, Some(UnknownAction(cur)));
      }
      var a := byID[cur];
      var r := run(order, a);
      ghost var rest := Walk(byID, run, cur, order);
      var before := details;
      if r.detail != "" {
        details := details + [r.detail];
      }
      assert details == before + Note([], r.detail);
      if r.verdict.PausedHere? {
        return Report(order + [cur], details, Some(ActionPaused));
      }
      if r.verdict.Broke? {
        if a.onError == "" {
          return Report(order + [cur], details, Some(ActionFailed(r.verdict.error)));
        }
        var hop := a.id + ":error→" + a.onError;
        AfterThen(order, before, cur, Note([], r.detail) + [hop], Walk(byID, run, a.onError, order + [cur]));
        assert before + (Note([], r.detail) + [hop]) == details + [hop];
        details := details + [hop];
        order := order + [cur];
        cur := a.onError;
      } else {
        AfterThen(order, before, cur, Note([], r.detail), Walk(byID, run, a.onSuccess, order + [cur]));
        order := order + [cur];
        cur := a.onSuccess;
      }
      steps := steps + 1;
    }
    if cur != "" {
      return Report(order, details, Some(TooManySteps));
    }
    report := Report(order, details, None);
  }

  lemma AfterThen(executed: seq<string>, details: seq<string>, id: string, more: seq<string>, rest: Report)
    ensures After(executed, details, Then(id, more, rest)) == After(executed + [id], details + more, rest)
  {
    assert executed + ([id] + rest.executed) == executed + [id] + rest.executed;
    assert details + (more + rest.details) == details + more + rest.details;
  }

  // ---- Each action at most once, at most 64 in all ----

  /** However the runner answers, no action runs twice and at most 64 run. */
  lemma {:induction false} RunsEachOnce(byID: Table, run: Runner, cur: string, done: seq<string>)
    requires Distinct(done) && |done| <= MAX_WORKFLOW_STEPS
    ensures var all := done + Walk(byID, run, cur, done).executed;
            Distinct(all) && |all| <= MAX_WORKFLOW_STEPS
    ensures forall id :: id in Walk(byID, run, cur, done).executed ==> id in byID
    decreases MAX_WORKFLOW_STEPS - |done|
  {
    var w := Walk(byID, run, cur, done);
    if w.executed == [] {
      assert done + [] == done;
      return;
    }
    var a := byID[cur];
    var r := run(done, a);
    var next := if r.verdict.Succeeded? then a.onSuccess else a.onError;
    if |w.executed| == 1 {
      assert w.executed == [cur];
    } else {
      RunsEachOnce(byID, run, next, done + [cur]);
      var rest := Walk(byID, run, next, done + [cur]);
      assert w.executed == [cur] + rest.executed;
      assert done + ([cur] + rest.executed) == (done + [cur]) + rest.executed;
    }
  }

  // ---- Pause and resume ----

  /** The runner seen by a resumed run: what ran before the pause is history. */
  function Resumed(run: Runner, before: seq<string>): Runner {
    (done, a) => run(before + done, a)
  }

  /** The same runner, except that the step after `before` pauses. */
  function PausingAfter(run: Runner, before: seq<string>): Runner {
    (done, a) => if done == before then RunResult(run(done, a).detail, PausedHere) else run(done, a)
  }

  predicate TripsGuard(report: Report) {
    report.error.Some? && (report.error.value.CycleAt? || report.error.value.TooManySteps?)
  }

  /** A walk that trips no guard does not depend on how much was done before it, the runner apart. */
  lemma {:induction false} FreshStart(byID: Table, run: Runner, cur: string, before: seq<string>, done: seq<string>)
    requires !TripsGuard(Walk(byID, run, cur, before + done))
    ensures Walk(byID, Resumed(run, before), cur, done) == Walk(byID, run, cur, before + done)
    decreases MAX_WORKFLOW_STEPS - |done|
  {
    if cur != "" && cur in byID {
      assert cur !in before + done;
      var a := byID[cur];
      var r := run(before + done, a);
      var next := if r.verdict.Succeeded? then a.onSuccess else a.onError;
      if !r.verdict.PausedHere? && (r.verdict.Succeeded? || a.onError != "") {
        assert before + (done + [cur]) == before + done + [cur];
        FreshStart(byID, run, next, before, done + [cur]);
      }
    }
  }

  /** One step of a walk that goes on, under the runner and under one that pauses later. */
  lemma StepsOn(byID: Table, run: Runner, cur: string, done: seq<string>, before: seq<string>)
    returns (next: string, notes: seq<string>)
    requires |Walk(byID, run, cur, done).executed| > 1 && |before| > |done|
    ensures Walk(byID, run, cur, done) == Then(cur, notes, Walk(byID, run, next, done + [cur]))
    ensures Walk(byID, PausingAfter(run, before), cur, done)
         == Then(cur, notes, Walk(byID, PausingAfter(run, before), next, done + [cur]))
  {
    var a := byID[cur];
    var r := run(done, a);
    assert PausingAfter(run, before)(done, a) == r;
    next := if r.verdict.Succeeded? then a.onSuccess else a.onError;
    notes := if r.verdict.Succeeded? then Note([], r.detail) else Note([], r.detail) + [a.id + ":error→" + a.onError];
  }

  /** The interrupted walk up to the pause at the k-th action it executes. */
  lemma {:induction false} PausesThere(byID: Table, run: Runner, cur: string, done: seq<string>, k: nat, before: seq<string>, at: string)
    requires var full := Walk(byID, run, cur, done);
             k < |full.executed| && !TripsGuard(full) && before == done + full.executed[..k] && at == full.executed[k]
    requires at in byID && run(before, byID[at]).verdict.Succeeded?
    ensures var full := Walk(byID, run, cur, done);
            var first := Walk(byID, PausingAfter(run, before), cur, done);
            && first.error == Some(ActionPaused)
            && first.executed == full.executed[..k + 1]
            && full == After(first.executed, first.details, Walk(byID, run, byID[at].onSuccess, before + [at]))
    decreases k
  {
    var full := Walk(byID, run, cur, done);
    if k == 0 {
      assert before == done;
      assert full.executed[..1] == [cur];
    } else {
      assert |before| > |done|;
      var next, notes := StepsOn(byID, run, cur, done, before);
      var tail := Walk(byID, run, next, done + [cur]);
      assert full.executed[..k] == [cur] + tail.executed[..k - 1];
      assert done + ([cur] + tail.executed[..k - 1]) == done + [cur] + tail.executed[..k - 1];
      PausesThere(byID, run, next, done + [cur], k - 1, before, at);
      assert full.executed[..k + 1] == [cur] + tail.executed[..k];
      ThenAfter(cur, notes, Walk(byID, PausingAfter(run, before), next, done + [cur]), Walk(byID, run, byID[at].onSuccess, before + [at]));
    }
  }

  lemma ThenAfter(id: string, details: seq<string>, first: Report, rest: Report)
    ensures Then(id, details, After(first.executed, first.details, rest))
         == After(Then(id, details, first).executed, Then(id, details, first).details, rest)
  {
    assert [id] + (first.executed + rest.executed) == [id] + first.executed + rest.executed;
    assert details + (first.details + rest.details) == details + first.details + rest.details;
  }

  /**
   * Pause and resume compose. Interrupt any run that trips no guard at any step
   * that succeeds and has a next action, and resume from that action: the two
   * segments together execute the same actions, gather the same details and end
   * in the same error as the uninterrupted run.
   */
  lemma PauseResumeCompose(actions: seq<Action>, startID: string, run: Runner, k: nat)
    requires var full := RunFrom(actions, startID, run);
             k < |full.executed| && !TripsGuard(full)
    requires var full := RunFrom(actions, startID, run);
             var byID := TableOf(actions);
             var at := full.executed[k];
             && at in byID
             && run(full.executed[..k], byID[at]).verdict.Succeeded?
             && Text.Trim(byID[at].onSuccess) == byID[at].onSuccess != ""
             && byID[at].onSuccess in byID
    ensures var full := RunFrom(actions, startID, run);
            var at := full.executed[k];
            var first := RunFrom(actions, startID, PausingAfter(run, full.executed[..k]));
            var second := RunFrom(actions, TableOf(actions)[at].onSuccess, Resumed(run, first.executed));
            && first.error == Some(ActionPaused)
            && first.executed == full.executed[..k + 1]
            && After(first.executed, first.details, second) == full
  {
    var byID := TableOf(actions);
    var start := StartOf(actions, startID);
    assert start in byID;
    WalkPauseResume(byID, run, start, k);
    var at := RunFrom(actions, startID, run).executed[k];
    assert StartOf(actions, byID[at].onSuccess) == byID[at].onSuccess;
  }

  lemma WalkPauseResume(byID: Table, run: Runner, start: string, k: nat)
    requires var full := Walk(byID, run, start, []);
             k < |full.executed| && !TripsGuard(full)
    requires var full := Walk(byID, run, start, []);
             full.executed[k] in byID && run(full.executed[..k], byID[full.executed[k]]).verdict.Succeeded?
    ensures var full := Walk(byID, run, start, []);
            var first := Walk(byID, PausingAfter(run, full.executed[..k]), start, []);
            var second := Walk(byID, Resumed(run, first.executed), byID[full.executed[k]].onSuccess, []);
            && first.error == Some(ActionPaused)
            && first.executed == full.executed[..k + 1]
            && After(first.executed, first.details, second) == full
  {
    var full := Walk(byID, run, start, []);
    var at := full.executed[k];
    assert [] + full.executed[..k] == full.executed[..k];
    PausesThere(byID, run, start, [], k, full.executed[..k], at);
    var before := full.executed[..k + 1];
    assert full.executed[..k] + [at] == before;
    assert before + [] == before;
    FreshStart(byID, run, byID[at].onSuccess, before, []);
  }

  // ---- Validation ----

  /** Within this many success edges the path leaves the table. */
  ghost predicate SuccessEnds(byID: Table, id: string, n: nat)
    decreases n
  {
    id in byID ==> n > 0 && SuccessEnds(byID, byID[id].onSuccess, n - 1)
  }

  ghost predicate SuccessPathEnds(byID: Table, id: string) {
    exists n: nat :: SuccessEnds(byID, id, n)
  }

  /** Following success edges from the id comes back to it. */
  ghost predicate SuccessCycle(byID: Table, id: string) {
    exists n: nat :: n > 0 && Successor(byID, id, n) == Some(id)
  }

  function Successor(byID: Table, id: string, n: nat): Option<string>
    decreases n
  {
    if n == 0 then Some(id)
    else if id in byID then Successor(byID, byID[id].onSuccess, n - 1)
    else None
  }

  lemma {:induction false} StackCycle(byID: Table, stack: seq<string>, i: nat)
    requires i < |stack| && Linked(byID, stack)
    ensures Successor(byID, stack[i], |stack| - i) == Some(byID[stack[|stack| - 1]].onSuccess)
    decreases |stack| - i
  {
    if i < |stack| - 1 {
      StackCycle(byID, stack, i + 1);
    }
  }

  /** Each id of the list succeeds to the next. */
  ghost predicate Linked(byID: Table, stack: seq<string>) {
    && (forall k :: 0 <= k < |stack| ==> stack[k] in byID)
    && (forall k :: 0 <= k < |stack| - 1 ==> byID[stack[k]].onSuccess == stack[k + 1])
  }

  lemma LinkedSnoc(byID: Table, stack: seq<string>, id: string)
    requires Linked(byID, stack) && id in byID
    requires stack != [] ==> byID[stack[|stack| - 1]].onSuccess == id
    ensures Linked(byID, stack + [id])
  {
  }

  lemma RepeatIsCycle(byID: Table, stack: seq<string>, id: string)
    requires Linked(byID, stack) && id in stack
    requires byID[stack[|stack| - 1]].onSuccess == id
    ensures SuccessCycle(byID, id)
  {
    var i :| 0 <= i < |stack| && stack[i] == id;
    StackCycle(byID, stack, i);
  }

  /** One edge of the graph, of either kind. */
  function EdgeTo(byID: Table): (string, string) -> bool {
    (from, to) => from in byID && (to == byID[from].onSuccess || to == byID[from].onError)
  }

  /** The id lies on some path from the entry along success and error edges. */
  ghost predicate Reached(byID: Table, entry: string, id: string) {
    exists n: nat :: Levels.Steps(entry, EdgeTo(byID), n, id)
  }

  ghost predicate CycleReached(byID: Table, entry: string) {
    exists x :: Reached(byID, entry, x) && SuccessCycle(byID, x)
  }

  lemma ReachedNext(byID: Table, entry: string, id: string)
    requires Reached(byID, entry, id) && id in byID
    ensures Reached(byID, entry, byID[id].onSuccess) && Reached(byID, entry, byID[id].onError)
  {
    var n: nat :| Levels.Steps(entry, EdgeTo(byID), n, id);
    assert EdgeTo(byID)(id, byID[id].onSuccess) && EdgeTo(byID)(id, byID[id].onError);
    assert Levels.Steps(entry, EdgeTo(byID), n + 1, byID[id].onSuccess);
    assert Levels.Steps(entry, EdgeTo(byID), n + 1, byID[id].onError);
  }

  /** Every id of the set has a success path that ends, inside the set. */
  ghost predicate AllEnd(byID: Table, ids: set<string>) {
    forall id :: id in ids ==>
      id in byID && SuccessPathEnds(byID, id) && (byID[id].onSuccess in byID ==> byID[id].onSuccess in ids)
  }

  lemma AllEndMore(byID: Table, ids: set<string>, id: string)
    requires AllEnd(byID, ids) && id in byID
    requires SuccessPathEnds(byID, byID[id].onSuccess)
    requires byID[id].onSuccess in byID ==> byID[id].onSuccess in ids
    ensures AllEnd(byID, ids + {id}) && SuccessPathEnds(byID, id)
  {
    PathEndsBefore(byID, id);
  }

  lemma PathEndsBefore(byID: Table, id: string)
    requires id in byID && SuccessPathEnds(byID, byID[id].onSuccess)
    ensures SuccessPathEnds(byID, id)
  {
    var n: nat :| SuccessEnds(byID, byID[id].onSuccess, n);
    assert SuccessEnds(byID, id, n + 1);
  }

  /** The depth-first search behind cycle detection, success edges only. */
  class CycleSearch {
    const byID: Table
    ghost const entry: string
    var seen: set<string>
    var stack: seq<string>

    constructor (byID: Table, ghost entry: string)
      ensures this.byID == byID && this.entry == entry && seen == {} && stack == []
    {
      this.byID := byID;
      this.entry := entry;
      seen := {};
      stack := [];
    }

    /** The seen ids that are no longer open. */
    ghost function Settled(): set<string>
      reads this
    {
      set id | id in seen && id !in stack
    }

    /** The open ids form one success path; the settled ones have paths that end; all are reached from the entry. */
    ghost predicate Valid()
      reads this
    {
      && (forall id :: id in stack ==> id in seen)
      && seen <= byID.Keys && (forall id :: id in seen ==> Reached(byID, entry, id))
      && Linked(byID, stack)
      && AllEnd(byID, Settled())
    }

    method Visit(id: string) returns (ok: bool)
      requires Valid() && "" !in byID && Reached(byID, entry, id)
      requires stack != [] ==> byID[stack[|stack| - 1]].onSuccess == id
      modifies this
      ensures ok ==> Valid() && stack == old(stack) && old(seen) <= seen
      ensures ok ==> SuccessPathEnds(byID, id) && (id in byID ==> id in Settled())
      ensures !ok ==> CycleReached(byID, entry)
      decreases byID.Keys - seen
    {
      if id in stack {
        RepeatIsCycle(byID, stack, id);
        return false;
      }
      if id in seen {
        return true;
      }
      if id !in byID {
        assert SuccessEnds(byID, id, 0);
        return true;
      }
      Enter(id);
      var next := byID[id].onSuccess;
      ReachedNext(byID, entry, id);
      if next != "" {
        var good := Visit(next);
        if !good {
          return false;
        }
      } else {
        assert SuccessEnds(byID, "", 0);
      }
      Leave(id);
      ok := true;
    }

    /** Opens an unseen id below the last open one. */
    method Enter(id: string)
      requires Valid() && id in byID && id !in seen && Reached(byID, entry, id)
      requires stack != [] ==> byID[stack[|stack| - 1]].onSuccess == id
      modifies this
      ensures Valid() && stack == old(stack) + [id] && seen == old(seen) + {id}
    {
      LinkedSnoc(byID, stack, id);
      ghost var settled := Settled();
      stack := stack + [id];
      seen := seen + {id};
      assert Settled() == settled;
    }

    /** Closes the last open id, whose successor's path ends. */
    method Leave(id: string)
      requires Valid() && stack != [] && stack[|stack| - 1] == id && id !in stack[..|stack| - 1]
      requires SuccessPathEnds(byID, byID[id].onSuccess)
      requires byID[id].onSuccess in byID ==> byID[id].onSuccess in Settled()
      modifies this
      ensures Valid() && stack == old(stack)[..|old(stack)| - 1] && seen == old(seen)
      ensures SuccessPathEnds(byID, id) && id in Settled()
    {
      AllEndMore(byID, Settled(), id);
      ghost var settled := Settled();
      assert stack == stack[..|stack| - 1] + [id];
      stack := stack[..|stack| - 1];
      assert Settled() == settled + {id};
    }
  }

  /** Every success path from the entry, and from an error edge on the entry's path, comes to an end. */
  ghost predicate PathsEnd(byID: Table, entry: string) {
    && SuccessPathEnds(byID, entry)
    && forall n: nat, id :: Successor(byID, entry, n) == Some(id) && id in byID && byID[id].onError != "" ==>
         SuccessPathEnds(byID, byID[id].onError)
  }

  /** Settled sets are closed under success edges, so the whole path from a member is in them. */
  lemma {:induction false} PathSettled(byID: Table, settled: set<string>, entry: string, n: nat, id: string)
    requires entry in byID ==> entry in settled
    requires forall x :: x in settled ==> x in byID && (byID[x].onSuccess in byID ==> byID[x].onSuccess in settled)
    requires Successor(byID, entry, n) == Some(id) && id in byID
    ensures id in settled
    decreases n
  {
    if n > 0 {
      PathSettled(byID, settled, byID[entry].onSuccess, n - 1, id);
    }
  }

  /** Walks the error branches of every id seen so far, and possibly of ids seen meanwhile. */
  method VisitErrorBranches(search: CycleSearch) returns (ok: bool)
    requires search.Valid() && search.stack == [] && "" !in search.byID
    modifies search
    ensures ok ==> forall id :: id in old(search.seen) ==> ErrorPathEnds(search.byID, id)
    ensures !ok ==> CycleReached(search.byID, search.entry)
  {
    var pending, offered := search.seen, search.seen;
    ghost var visited: set<string> := {};
    while pending != {}
      invariant search.Valid() && search.stack == []
      invariant pending <= offered <= search.seen
      invariant old(search.seen) <= visited + pending
      invariant forall id :: id in visited ==> ErrorPathEnds(search.byID, id)
      decreases search.byID.Keys - offered, |pending|
    {
      var id :| id in pending;
      pending := pending - {id};
      if search.byID[id].onError != "" {
        ReachedNext(search.byID, search.entry, id);
        ok := search.Visit(search.byID[id].onError);
        if !ok { return; }
      }
      visited := visited + {id};
      var extra := AnyPart(search.seen - offered);
      pending := pending + extra;
      offered := offered + extra;
    }
    ok := true;
  }

  /** Any part of a set: which of the new ids the range loop still visits is not specified. */
  method AnyPart(ids: set<string>) returns (part: set<string>)
    ensures part <= ids
  {
    assert {} <= ids;
    part :| part <= ids;
  }

  ghost predicate ErrorPathEnds(byID: Table, id: string) {
    id in byID && (byID[id].onError != "" ==> SuccessPathEnds(byID, byID[id].onError))
  }

  /**
   * detectCycle. The second loop ranges over a map that grows meanwhile: ids added
   * during the loop may or may not be visited.
   */
  method DetectCycle(entry: string, byID: Table) returns (ok: bool)
    requires "" !in byID
    ensures ok ==> PathsEnd(byID, entry)
    ensures !ok ==> CycleReached(byID, entry)
  {
    var search := new CycleSearch(byID, entry);
    assert Levels.Steps(entry, EdgeTo(byID), 0, entry);
    ok := search.Visit(entry);
    if !ok { return; }
    ghost var settled := search.seen;
    assert search.Settled() == search.seen;
    ok := VisitErrorBranches(search);
    if !ok { return; }
    forall n: nat, id | Successor(byID, entry, n) == Some(id) && id in byID && byID[id].onError != ""
      ensures SuccessPathEnds(byID, byID[id].onError)
    {
      PathSettled(byID, settled, entry, n, id);
    }
    ok := true;
  }

  // ---- ValidateActionGraph ----

  /** An edge target is absent, or another known action. */
  predicate GoodTarget(byID: Table, a: Action, target: string) {
    target == "" || (target in byID && target != a.id)
  }

  function TrimmedIds(actions: seq<Action>): (ids: seq<string>)
    ensures |ids| == |actions|
    ensures forall i :: 0 <= i < |ids| ==> ids[i] == Text.Trim(actions[i].id)
  {
    seq(|actions|, i requires 0 <= i < |actions| => Text.Trim(actions[i].id))
  }

  function TrimmedTable(actions: seq<Action>): Table {
    TableBy(TrimmedIds(actions), actions)
  }

  predicate Named(ids: seq<string>) {
    Distinct(ids) && "" !in ids
  }

  predicate GoodTargets(byID: Table, actions: seq<Action>) {
    forall a :: a in actions ==> GoodTarget(byID, a, a.onSuccess) && GoodTarget(byID, a, a.onError)
  }

  /** What a graph that passes validation satisfies. */
  ghost predicate Validated(actions: seq<Action>) {
    && actions != []
    && Named(TrimmedIds(actions))
    && GoodTargets(TrimmedTable(actions), actions)
    && PathsEnd(TrimmedTable(actions), actions[0].id)
  }

  lemma {:induction false} TableHolds(ids: seq<string>, actions: seq<Action>)
    requires |ids| == |actions|
    ensures forall id :: id in TableBy(ids, actions) <==> id in ids
    ensures forall id :: id in TableBy(ids, actions) ==> TableBy(ids, actions)[id] in actions
  {
    if actions != [] {
      var n := |actions| - 1;
      TableHolds(ids[..n], actions[..n]);
      assert actions == actions[..n] + [actions[n]] && ids == ids[..n] + [ids[n]];
    }
  }

  /** Validates a graph; refuses only one with a missing, repeated or dangling id, a self edge or a success cycle reached from the entry. */
  method ValidateActionGraph(actions: seq<Action>) returns (ok: bool)
    ensures ok ==> Validated(actions)
    ensures !ok ==>
      || actions == []
      || !Named(TrimmedIds(actions))
      || !GoodTargets(TrimmedTable(actions), actions)
      || CycleReached(TrimmedTable(actions), actions[0].id)
  {
    if actions == [] {
      return false;
    }
    var byID := IndexTrimmed(actions);
    if byID.None? {
      return false;
    }
    ok := CheckTargets(byID.value, actions);
    if ok {
      TableHolds(TrimmedIds(actions), actions);
      ok := DetectCycle(actions[0].id, byID.value);
    }
  }

  /** The actions under their trimmed ids, or nothing when an id is empty or repeated. */
  method IndexTrimmed(actions: seq<Action>) returns (r: Option<Table>)
    ensures r.Some? <==> Named(TrimmedIds(actions))
    ensures r.Some? ==> r.value == TrimmedTable(actions)
  {
    var byID: Table := map[];
    ghost var ids := TrimmedIds(actions);
    for i := 0 to |actions|
      invariant byID == TableBy(ids[..i], actions[..i]) && Named(ids[..i])
    {
      var id := Text.Trim(actions[i].id);
      TableHolds(ids[..i], actions[..i]);
      NamedSnoc(ids, i);
      if id == "" {
        return None;
      }
      if id in byID {
        RepeatedId(ids, i);
        return None;
      }
      TableSnoc(ids, actions, i);
      byID := byID[id := actions[i]];
    }
    assert actions[..|actions|] == actions && ids[..|ids|] == ids;
    r := Some(byID);
  }

  method CheckTargets(byID: Table, actions: seq<Action>) returns (ok: bool)
    ensures ok <==> GoodTargets(byID, actions)
  {
    for i := 0 to |actions|
      invariant forall a :: a in actions[..i] ==> GoodTarget(byID, a, a.onSuccess) && GoodTarget(byID, a, a.onError)
    {
      assert actions[..i + 1] == actions[..i] + [actions[i]];
      if !GoodTarget(byID, actions[i], actions[i].onSuccess) || !GoodTarget(byID, actions[i], actions[i].onError) {
        assert actions[i] in actions;
        return false;
      }
    }
    assert actions[..|actions|] == actions;
    ok := true;
  }

  lemma NamedSnoc(ids: seq<string>, i: nat)
    requires i < |ids| && Named(ids[..i])
    ensures ids[i] == "" ==> !Named(ids)
    ensures ids[i] != "" && ids[i] !in ids[..i] ==> Named(ids[..i + 1])
  {
    assert ids[..i + 1] == ids[..i] + [ids[i]];
    assert ids[i] in ids;
  }

  lemma RepeatedId(ids: seq<string>, i: nat)
    requires i < |ids| && ids[i] in ids[..i]
    ensures !Named(ids)
  {
    var j :| 0 <= j < i && ids[..i][j] == ids[i];
  }

  // ---- A validated graph whose actions succeed always finishes ----

  /** The ids are already trimmed, as normalisation leaves them. */
  predicate Normalised(actions: seq<Action>) {
    forall a :: a in actions ==> Text.Trim(a.id) == a.id
  }

  lemma NormalisedTables(actions: seq<Action>)
    requires Normalised(actions)
    ensures TrimmedIds(actions) == Ids(actions)
  {
  }

  lemma {:induction false} TableSize(ids: seq<string>, actions: seq<Action>)
    requires |ids| == |actions|
    ensures |TableBy(ids, actions).Keys| <= |actions|
  {
    if actions != [] {
      var n := |actions| - 1;
      TableSize(ids[..n], actions[..n]);
      assert TableBy(ids, actions).Keys == TableBy(ids[..n], actions[..n]).Keys + {ids[n]};
    }
  }

  lemma {:induction false} SuccessEndsMono(byID: Table, id: string, n: nat, m: nat)
    requires n <= m && SuccessEnds(byID, id, n)
    ensures SuccessEnds(byID, id, m)
    decreases n
  {
    if id in byID {
      SuccessEndsMono(byID, byID[id].onSuccess, n - 1, m - 1);
    }
  }

  lemma {:induction false} LeastEnd(byID: Table, id: string, m: nat) returns (n: nat)
    requires SuccessEnds(byID, id, m)
    ensures n <= m && SuccessEnds(byID, id, n) && (n > 0 ==> !SuccessEnds(byID, id, n - 1))
  {
    if m > 0 && SuccessEnds(byID, id, m - 1) {
      n := LeastEnd(byID, id, m - 1);
    } else {
      n := m;
    }
  }

  lemma {:induction false} SetSize(ids: seq<string>, all: set<string>)
    requires Distinct(ids) && forall id :: id in ids ==> id in all
    ensures |ids| <= |all|
    decreases |ids|
  {
    if ids != [] {
      var n := |ids| - 1;
      assert forall i :: 0 <= i < n ==> ids[..n][i] == ids[i] && ids[i] in ids;
      assert ids[n] in ids;
      SetSize(ids[..n], all - {ids[n]});
    }
  }

  /** What was done has a longer way to the end than what is left, so it is never met again. */
  lemma {:induction false} SucceedingWalkEnds(byID: Table, run: Runner, cur: string, done: seq<string>, m: nat)
    requires forall h: seq<string>, a: Action :: run(h, a).verdict.Succeeded?
    requires forall id :: id in byID ==> byID[id].onSuccess == "" || byID[id].onSuccess in byID
    requires "" !in byID && |byID.Keys| <= MAX_WORKFLOW_STEPS
    requires cur == "" || cur in byID
    requires Distinct(done) && forall id :: id in done ==> id in byID && !SuccessEnds(byID, id, m)
    requires SuccessEnds(byID, cur, m)
    ensures Walk(byID, run, cur, done).error == None
    decreases MAX_WORKFLOW_STEPS - |done|
  {
    if cur != "" {
      var n := LeastEnd(byID, cur, m);
      forall id | id in done ensures !SuccessEnds(byID, id, n - 1) {
        if SuccessEnds(byID, id, n - 1) {
          SuccessEndsMono(byID, id, n - 1, m);
        }
      }
      var more := done + [cur];
      assert forall id :: id in more ==> id in byID;
      SetSize(more, byID.Keys);
      SucceedingWalkEnds(byID, run, byID[cur].onSuccess, more, n - 1);
    }
  }

  /** A validated graph of at most 64 actions that all succeed never reports a cycle or runs out of steps. */
  lemma ValidatedGraphFinishes(actions: seq<Action>, run: Runner)
    requires Validated(actions) && Normalised(actions) && |actions| <= MAX_WORKFLOW_STEPS
    requires forall h: seq<string>, a: Action :: run(h, a).verdict.Succeeded?
    ensures RunFrom(actions, actions[0].id, run).error == None
  {
    var byID := TableOf(actions);
    NormalisedTables(actions);
    TableHolds(Ids(actions), actions);
    TableSize(Ids(actions), actions);
    assert actions[0] in actions && Ids(actions)[0] == actions[0].id;
    var m: nat :| SuccessEnds(byID, actions[0].id, m);
    SucceedingWalkEnds(byID, run, actions[0].id, [], m);
  }
}

/**
 * What a report says of the run it describes, read off the report, the actions and
 * the runner (core/automations/workflow.go:21-95, 156-204).
 */
module RunReports {
  import opened Wrappers
  import opened Sorting
  import opened Workflow
  import Text

  /** How the i-th executed action went. */
  function VerdictAt(byID: Table, run: Runner, all: seq<string>, i: nat): Verdict
    requires i < |all| && all[i] in byID
  {
    run(all[..i], byID[all[i]]).verdict
  }

  /** A success leads along on_success, a failure along on_error; a pause, or a failure without on_error, leads nowhere. */
  function LeadsTo(byID: Table, run: Runner, all: seq<string>, i: nat): Option<string>
    requires i < |all| && all[i] in byID
  {
    match VerdictAt(byID, run, all, i)
    case Succeeded => Some(byID[all[i]].onSuccess)
    case Broke(_) => if byID[all[i]].onError != "" then Some(byID[all[i]].onError) else None
    case PausedHere => None
  }

  /** Each executed action is the one the action before it leads to; the first is the start. */
  ghost predicate Follows(byID: Table, run: Runner, start: string, all: seq<string>, k: nat)
    requires k <= |all|
  {
    && (forall i :: 0 <= i < |all| ==> all[i] in byID)
    && (k < |all| ==> all[k] == start)
    && (forall i :: k <= i < |all| - 1 ==> LeadsTo(byID, run, all, i) == Some(all[i + 1]))
  }

  /** Where the run stands after the executed actions. */
  function Next(byID: Table, run: Runner, start: string, all: seq<string>, k: nat): Option<string>
    requires k <= |all| && forall i :: 0 <= i < |all| ==> all[i] in byID
  {
    if |all| == k then Some(start) else LeadsTo(byID, run, all, |all| - 1)
  }

  /** How the run ended: nowhere to go, too many steps, back at an executed action, or at an unknown one. */
  ghost predicate Stops(byID: Table, all: seq<string>, next: string, error: Option<RunError>) {
    && (error == None <==> next == "")
    && (error == Some(TooManySteps) <==> next != "" && |all| >= 64)
    && (error == Some(CycleAt(next)) <==> next != "" && |all| < 64 && next in all)
    && (error == Some(UnknownAction(next)) <==> next != "" && |all| < 64 && next !in all)
    && (error == Some(UnknownAction(next)) ==> next !in byID)
  }

  /** How the run ended when the last action led nowhere: it paused, or broke without on_error. */
  ghost predicate Breaks(verdict: Verdict, error: Option<RunError>) {
    && (error == Some(ActionPaused) <==> verdict.PausedHere?)
    && (verdict.Broke? ==> error == Some(ActionFailed(verdict.error)))
  }

  ghost predicate Ends(byID: Table, run: Runner, start: string, all: seq<string>, k: nat, error: Option<RunError>)
    requires k <= |all| && forall i :: 0 <= i < |all| ==> all[i] in byID
  {
    match Next(byID, run, start, all, k)
    case Some(next) => Stops(byID, all, next, error)
    case None => Breaks(VerdictAt(byID, run, all, |all| - 1), error)
  }

  /** What the i-th executed action leaves in the details: its own detail, and its hop when it broke. */
  function NotesAt(byID: Table, run: Runner, all: seq<string>, i: nat): seq<string>
    requires i < |all| && all[i] in byID
  {
    var a := byID[all[i]];
    var detail := run(all[..i], a).detail;
    (if detail != "" then [detail] else [])
    + if VerdictAt(byID, run, all, i).Broke? && a.onError != "" then [a.id + ":error→" + a.onError] else []
  }

  function NotesTo(byID: Table, run: Runner, all: seq<string>, n: nat): seq<string>
    requires n <= |all| && forall i :: 0 <= i < |all| ==> all[i] in byID
  {
    if n == 0 then [] else NotesTo(byID, run, all, n - 1) + NotesAt(byID, run, all, n - 1)
  }

  ghost predicate Tells(byID: Table, run: Runner, start: string, done: seq<string>, w: Report) {
    var all := done + w.executed;
    && Follows(byID, run, start, all, |done|)
    && Ends(byID, run, start, all, |done|, w.error)
    && NotesTo(byID, run, all, |done|) + w.details == NotesTo(byID, run, all, |all|)
  }

  /** One executed action of a walk, in terms of where it leads and what it notes. */
  lemma WalkStep(byID: Table, run: Runner, cur: string, done: seq<string>)
    requires cur != "" && |done| < 64 && cur !in done && cur in byID
    ensures var w := Walk(byID, run, cur, done);
            var more := done + [cur];
            match LeadsTo(byID, run, more, |done|)
            case Some(next) => w == Then(cur, NotesAt(byID, run, more, |done|), Walk(byID, run, next, more))
            case None => w == Report([cur], NotesAt(byID, run, more, |done|), w.error) && Breaks(VerdictAt(byID, run, more, |done|), w.error)
  {
    var more, a := done + [cur], byID[cur];
    var r := run(done, a);
    assert more[..|done|] == done && more[|done|] == cur;
    assert VerdictAt(byID, run, more, |done|) == r.verdict;
    var hop := if r.verdict.Broke? && a.onError != "" then [a.id + ":error→" + a.onError] else [];
    assert NotesAt(byID, run, more, |done|) == Note([], r.detail) + hop by {
      NotesJoin(r.detail, hop);
    }
    assert hop == [] ==> Note([], r.detail) + hop == Note([], r.detail);
  }

  lemma NotesJoin(detail: string, hop: seq<string>)
    ensures (if detail != "" then [detail] else []) + hop == Note([], detail) + hop
  {
  }

  lemma {:induction false} WalkTells(byID: Table, run: Runner, cur: string, done: seq<string>)
    requires |done| <= 64 && forall id :: id in done ==> id in byID
    ensures Tells(byID, run, cur, done, Walk(byID, run, cur, done))
    decreases 64 - |done|
  {
    var w := Walk(byID, run, cur, done);
    if cur == "" || |done| >= 64 || cur in done || cur !in byID {
      StopsHere(byID, run, cur, done, w);
    } else {
      var more := done + [cur];
      assert forall id :: id in more ==> id in byID;
      WalkStep(byID, run, cur, done);
      var next := LeadsTo(byID, run, more, |done|);
      if next.None? {
        LastStep(byID, run, cur, done, w);
      } else {
        WalkTells(byID, run, next.value, more);
        FirstStep(byID, run, cur, done, next.value, Walk(byID, run, next.value, more), w);
      }
    }
  }

  lemma StopsHere(byID: Table, run: Runner, cur: string, done: seq<string>, w: Report)
    requires forall id :: id in done ==> id in byID
    requires w.executed == [] && w.details == [] && Stops(byID, done, cur, w.error)
    ensures Tells(byID, run, cur, done, w)
  {
    assert done + [] == done;
  }

  lemma LastStep(byID: Table, run: Runner, cur: string, done: seq<string>, w: Report)
    requires cur in byID && forall id :: id in done ==> id in byID
    requires var more := done + [cur];
             && LeadsTo(byID, run, more, |done|) == None
             && w == Report([cur], NotesAt(byID, run, more, |done|), w.error)
             && Breaks(VerdictAt(byID, run, more, |done|), w.error)
    ensures Tells(byID, run, cur, done, w)
  {
  }

  /** One step in front of a report that tells. */
  lemma FirstStep(byID: Table, run: Runner, cur: string, done: seq<string>, next: string, rest: Report, w: Report)
    requires cur in byID && forall id :: id in done ==> id in byID
    requires var more := done + [cur];
             && LeadsTo(byID, run, more, |done|) == Some(next)
             && w == Then(cur, NotesAt(byID, run, more, |done|), rest)
             && Tells(byID, run, next, more, rest)
    ensures Tells(byID, run, cur, done, w)
  {
    var more := done + [cur];
    var all := more + rest.executed;
    assert done + w.executed == all;
    SameStep(byID, run, more, rest.executed, |done|);
    FirstFollows(byID, run, cur, next, all, |done|);
    FirstEnds(byID, run, cur, next, all, |done|, w.error);
    var before := NotesTo(byID, run, all, |done|);
    assert before + w.details == before + NotesAt(byID, run, all, |done|) + rest.details;
  }

  /** What an action did does not depend on what ran after it. */
  lemma SameStep(byID: Table, run: Runner, all: seq<string>, later: seq<string>, i: nat)
    requires i < |all| && all[i] in byID
    ensures LeadsTo(byID, run, all + later, i) == LeadsTo(byID, run, all, i)
    ensures NotesAt(byID, run, all + later, i) == NotesAt(byID, run, all, i)
  {
    assert (all + later)[..i] == all[..i] && (all + later)[i] == all[i];
  }

  lemma FirstFollows(byID: Table, run: Runner, cur: string, next: string, all: seq<string>, k: nat)
    requires k < |all| && all[k] == cur && Follows(byID, run, next, all, k + 1) && LeadsTo(byID, run, all, k) == Some(next)
    ensures Follows(byID, run, cur, all, k)
  {
  }

  lemma FirstEnds(byID: Table, run: Runner, cur: string, next: string, all: seq<string>, k: nat, error: Option<RunError>)
    requires k < |all| && forall i :: 0 <= i < |all| ==> all[i] in byID
    requires Ends(byID, run, next, all, k + 1, error) && LeadsTo(byID, run, all, k) == Some(next)
    ensures Ends(byID, run, cur, all, k, error)
  {
  }

  /** The id is that of the i-th action, and of no later one. */
  ghost predicate LastWithId(actions: seq<Action>, id: string, i: int) {
    0 <= i < |actions| && actions[i].id == id && forall j :: i < j < |actions| ==> actions[j].id != id
  }

  lemma {:induction false} TableIsLast(actions: seq<Action>, id: string)
    ensures id in TableOf(actions) <==> exists i :: LastWithId(actions, id, i)
    ensures forall i :: LastWithId(actions, id, i) ==> TableOf(actions)[id] == actions[i]
  {
    if actions != [] {
      var n := |actions| - 1;
      TableIsLast(actions[..n], id);
      assert Ids(actions)[..n] == Ids(actions[..n]);
      if actions[n].id == id {
        assert LastWithId(actions, id, n);
      } else {
        forall i ensures LastWithId(actions, id, i) <==> LastWithId(actions[..n], id, i) {
          if LastWithId(actions[..n], id, i) {
            assert forall j :: i < j < n ==> actions[j] == actions[..n][j];
          }
        }
      }
    }
  }

  /**
   * Every run, read off its report: it needs actions and a known start; each
   * executed action is where the one before it led, by success or by failure; the
   * details are theirs in order; and the error says how the last one went or where
   * the run could not go on.
   */
  lemma ReportTells(actions: seq<Action>, startID: string, run: Runner)
    ensures var report := RunFrom(actions, startID, run);
            && (report.error == Some(NoActions) <==> actions == [])
            && (actions == [] ==> report.executed == [] && report.details == [])
    ensures actions != [] ==>
            var report := RunFrom(actions, startID, run);
            var trimmed := Text.Trim(startID);
            var start := if trimmed != "" then trimmed else actions[0].id;
            var byID := TableOf(actions);
            && (report.error == Some(UnknownStart(start)) <==> start !in byID)
            && (start !in byID ==> report.executed == [] && report.details == [])
            && (start in byID ==>
                  && Distinct(report.executed) && |report.executed| <= 64
                  && Follows(byID, run, start, report.executed, 0)
                  && Ends(byID, run, start, report.executed, 0, report.error)
                  && report.details == NotesTo(byID, run, report.executed, |report.executed|))
  {
    if actions != [] && StartOf(actions, startID) in TableOf(actions) {
      var byID, start := TableOf(actions), StartOf(actions, startID);
      var w := Walk(byID, run, start, []);
      WalkTells(byID, run, start, []);
      RunsEachOnce(byID, run, start, []);
      assert [] + w.executed == w.executed && [] + w.details == w.details;
      NoStartErrors(byID, run, w.executed, start, w.error);
    }
  }

  lemma NoStartErrors(byID: Table, run: Runner, all: seq<string>, start: string, error: Option<RunError>)
    requires (forall i :: 0 <= i < |all| ==> all[i] in byID) && Ends(byID, run, start, all, 0, error)
    ensures error != Some(NoActions) && forall id :: error != Some(UnknownStart(id))
  {
  }

  /**
   * A failure is reported as such exactly when the last executed action broke and
   * has no on_error, a finished run exactly when the last one succeeded and has no
   * on_success.
   */
  lemma FailureIsReported(actions: seq<Action>, startID: string, run: Runner)
    requires var report := RunFrom(actions, startID, run);
             report.executed != [] && forall id :: id in report.executed ==> id in TableOf(actions)
    ensures var report := RunFrom(actions, startID, run);
            var last := TableOf(actions)[report.executed[|report.executed| - 1]];
            var verdict := run(report.executed[..|report.executed| - 1], last).verdict;
            && (forall why :: report.error == Some(ActionFailed(why)) <==> verdict == Broke(why) && last.onError == "")
            && (report.error == None <==> verdict == Succeeded && last.onSuccess == "")
            && (report.error == Some(ActionPaused) <==> verdict == PausedHere)
  {
    ReportTells(actions, startID, run);
  }

  // ---- What validation asks ----

  /** Every id, trimmed, is there and is the only one of its kind. */
  ghost predicate IdsAreGood(actions: seq<Action>) {
    && (forall a :: a in actions ==> Text.Trim(a.id) != "")
    && forall i, j :: 0 <= i < j < |actions| ==> Text.Trim(actions[i].id) != Text.Trim(actions[j].id)
  }

  /** The edge is absent, or leads to the id of some action, and to another one. */
  ghost predicate EdgeIsGood(actions: seq<Action>, a: Action, target: string) {
    target != "" ==> target != a.id && exists b :: b in actions && Text.Trim(b.id) == target
  }

  ghost predicate EdgesAreGood(actions: seq<Action>) {
    forall a :: a in actions ==> EdgeIsGood(actions, a, a.onSuccess) && EdgeIsGood(actions, a, a.onError)
  }

  lemma IdsAreNamed(actions: seq<Action>)
    ensures Named(TrimmedIds(actions)) <==> IdsAreGood(actions)
  {
    var ids := TrimmedIds(actions);
    assert "" in ids <==> exists a :: a in actions && Text.Trim(a.id) == "" by {
      if "" in ids {
        var i :| 0 <= i < |ids| && ids[i] == "";
        assert actions[i] in actions;
      }
      if a :| a in actions && Text.Trim(a.id) == "" {
        var i :| 0 <= i < |actions| && actions[i] == a;
        assert ids[i] == "";
      }
    }
  }

  lemma TargetIsKnown(actions: seq<Action>, target: string)
    ensures target in TrimmedTable(actions) <==> exists b :: b in actions && Text.Trim(b.id) == target
  {
    var ids := TrimmedIds(actions);
    TableHolds(ids, actions);
    if target in ids {
      var i :| 0 <= i < |ids| && ids[i] == target;
      assert actions[i] in actions;
    }
    if b :| b in actions && Text.Trim(b.id) == target {
      var i :| 0 <= i < |actions| && actions[i] == b;
      assert ids[i] == target;
    }
  }

  lemma TargetsAreGood(actions: seq<Action>)
    ensures GoodTargets(TrimmedTable(actions), actions) <==> EdgesAreGood(actions)
  {
    var byID := TrimmedTable(actions);
    forall a, target ensures GoodTarget(byID, a, target) <==> EdgeIsGood(actions, a, target) {
      TargetIsKnown(actions, target);
    }
  }

  /** A graph passes validation only with actions, good ids, good edges and success paths that end. */
  lemma ValidatedMeans(actions: seq<Action>)
    ensures Validated(actions) <==>
      actions != [] && IdsAreGood(actions) && EdgesAreGood(actions) && PathsEnd(TrimmedTable(actions), actions[0].id)
  {
    IdsAreNamed(actions);
    TargetsAreGood(actions);
  }
}
