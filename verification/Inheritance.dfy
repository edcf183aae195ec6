/**
 * What holding a role confers (internal/service/delegation.go:91-149): a
 * level-by-level walk over role parents, cut off after a fixed number of levels.
 */
module Roles {
  import opened Wrappers
  import opened Sorting
  import Expand

  const MAX_ROLE_INHERITANCE_DEPTH: nat := 16

  datatype Row = Row(key: string, id: string, permissionKeys: seq<string>, parentKeys: seq<string>)

  /** Rows by key; a later row replaces an earlier one of the same key. */
  type Table = map<string, Row>

  function TableOf(rows: seq<Row>): Table {
    if rows == [] then map[] else TableOf(rows[..|rows| - 1])[rows[|rows| - 1].key := rows[|rows| - 1]]
  }

  /** The key of the last row carrying the id, or the empty string. */
  function StartOf(rows: seq<Row>, roleID: string): string {
    if rows == [] then ""
    else if rows[|rows| - 1].id == roleID then rows[|rows| - 1].key
    else StartOf(rows[..|rows| - 1], roleID)
  }

  /** The last row that carries the id. */
  ghost predicate LastWithId(rows: seq<Row>, roleID: string, i: int) {
    0 <= i < |rows| && rows[i].id == roleID && forall j :: i < j < |rows| ==> rows[j].id != roleID
  }

  lemma {:induction false} StartIsLast(rows: seq<Row>, roleID: string)
    ensures forall i :: LastWithId(rows, roleID, i) ==> StartOf(rows, roleID) == rows[i].key
    ensures StartOf(rows, roleID) != "" ==> exists i :: LastWithId(rows, roleID, i)
  {
    if rows != [] {
      var n := |rows| - 1;
      if rows[n].id == roleID {
        assert LastWithId(rows, roleID, n);
      } else {
        StartIsLast(rows[..n], roleID);
        forall i ensures LastWithId(rows, roleID, i) <==> LastWithId(rows[..n], roleID, i) {
          if LastWithId(rows[..n], roleID, i) {
            assert forall j :: i < j < n ==> rows[j] == rows[..n][j];
          }
        }
      }
    }
  }

  /** The last row that carries the key. */
  ghost predicate LastWithKey(rows: seq<Row>, key: string, i: int) {
    0 <= i < |rows| && rows[i].key == key && forall j :: i < j < |rows| ==> rows[j].key != key
  }

  /** The table holds, for each key, the last row that carries it. */
  lemma {:induction false} TableIsLast(rows: seq<Row>, key: string)
    ensures key in TableOf(rows) <==> exists i :: LastWithKey(rows, key, i)
    ensures forall i :: LastWithKey(rows, key, i) ==> TableOf(rows)[key] == rows[i]
  {
    if rows != [] {
      var n := |rows| - 1;
      TableIsLast(rows[..n], key);
      if rows[n].key == key {
        assert LastWithKey(rows, key, n);
      } else {
        forall i ensures LastWithKey(rows, key, i) <==> LastWithKey(rows[..n], key, i) {
          if LastWithKey(rows[..n], key, i) {
            assert forall j :: i < j < n ==> rows[j] == rows[..n][j];
          }
        }
      }
    }
  }

  /** The key is an ancestor exactly n parent links above the start. */
  ghost predicate Hop(table: Table, start: string, n: nat, key: string) {
    if n == 0 then key == start
    else exists child :: Hop(table, start, n - 1, child) && child in table && key in table[child].parentKeys
  }

  ghost predicate Within(table: Table, start: string, n: nat, key: string) {
    exists m: nat :: m < n && Hop(table, start, m, key)
  }

  /** The permission is carried by some ancestor fewer than n links away. */
  ghost predicate Confers(table: Table, start: string, n: nat, permission: string) {
    exists key :: Within(table, start, n, key) && key in table && permission in table[key].permissionKeys
  }

  /** Once a level adds nothing, no later level does. */
  lemma {:induction false} ClosedLevels(table: Table, start: string, d: nat, seen: set<string>, m: nat, key: string)
    requires forall k :: k in seen <==> Within(table, start, d, k)
    requires forall k :: Hop(table, start, d, k) ==> k in seen
    requires Hop(table, start, m, key)
    ensures key in seen
  {
    if m >= d {
      if m > d {
        var child :| Hop(table, start, m - 1, child) && child in table && key in table[child].parentKeys;
        ClosedLevels(table, start, d, seen, m - 1, child);
        var k: nat :| k < d && Hop(table, start, k, child);
        assert Hop(table, start, k + 1, key);
      }
    }
  }

  /** Everything a role confers, its ancestors' permissions included. */
  method EffectiveRolePermissions(rows: seq<Row>, roleID: string) returns (r: Option<seq<string>>)
    ensures r.Some? <==> exists i :: LastWithId(rows, roleID, i) && rows[i].key != ""
    ensures r.Some? ==> Ascending(Less, r.value)
    ensures r.Some? ==> forall i, p :: LastWithId(rows, roleID, i) ==> (p in r.value <==> Confers(TableOf(rows), rows[i].key, 16, p))
  {
    var byKey: Table := map[];
    var start := "";
    for i := 0 to |rows|
      invariant byKey == TableOf(rows[..i]) && start == StartOf(rows[..i], roleID)
    {
      assert rows[..i + 1][..i] == rows[..i];
      byKey := byKey[rows[i].key := rows[i]];
      if rows[i].id == roleID {
        start := rows[i].key;
      }
    }
    assert rows[..|rows|] == rows;
    StartIsLast(rows, roleID);
    if start == "" {
      return None;
    }
    var granted := Climb(byKey, start);
    LessIsTotal();
    var out := SortSet(Less, granted);
    assert forall p :: p in out <==> p in Elements(out);
    r := Some(out);
  }

  method Climb(byKey: Table, start: string) returns (granted: set<string>)
    ensures forall p :: p in granted <==> Confers(byKey, start, MAX_ROLE_INHERITANCE_DEPTH, p)
  {
    granted := {};
    var seen: set<string> := {};
    var frontier := [start];
    var depth: nat := 0;
    while depth < MAX_ROLE_INHERITANCE_DEPTH && frontier != []
      invariant depth <= MAX_ROLE_INHERITANCE_DEPTH
      invariant forall k :: k in seen <==> Within(byKey, start, depth, k)
      invariant forall k :: k in frontier ==> Hop(byKey, start, depth, k)
      invariant forall k :: Hop(byKey, start, depth, k) ==> k in seen || k in frontier
      invariant forall p :: p in granted <==> exists k :: k in seen && k in byKey && p in byKey[k].permissionKeys
    {
      granted, seen, frontier := Level(byKey, start, depth, granted, seen, frontier);
      depth := depth + 1;
    }
    forall p ensures p in granted <==> Confers(byKey, start, MAX_ROLE_INHERITANCE_DEPTH, p) {
      if Confers(byKey, start, MAX_ROLE_INHERITANCE_DEPTH, p) {
        var key :| Within(byKey, start, MAX_ROLE_INHERITANCE_DEPTH, key) && key in byKey && p in byKey[key].permissionKeys;
        var m: nat :| m < MAX_ROLE_INHERITANCE_DEPTH && Hop(byKey, start, m, key);
        if depth < MAX_ROLE_INHERITANCE_DEPTH {
          ClosedLevels(byKey, start, depth, seen, m, key);
        }
      }
      if p in granted {
        var k :| k in seen && k in byKey && p in byKey[k].permissionKeys;
        var m: nat :| m < depth && Hop(byKey, start, m, k);
        assert Within(byKey, start, MAX_ROLE_INHERITANCE_DEPTH, k);
      }
    }
  }

  /** One level: absorb the new keys of the frontier and queue their parents. */
  method Level(byKey: Table, ghost start: string, ghost depth: nat, granted0: set<string>, seen0: set<string>, frontier: seq<string>)
    returns (granted: set<string>, seen: set<string>, next: seq<string>)
    requires forall k :: k in seen0 <==> Within(byKey, start, depth, k)
    requires forall k :: k in frontier ==> Hop(byKey, start, depth, k)
    requires forall k :: Hop(byKey, start, depth, k) ==> k in seen0 || k in frontier
    requires forall p :: p in granted0 <==> exists k :: k in seen0 && k in byKey && p in byKey[k].permissionKeys
    ensures forall k :: k in seen <==> Within(byKey, start, depth + 1, k)
    ensures forall k :: k in next ==> Hop(byKey, start, depth + 1, k)
    ensures forall k :: Hop(byKey, start, depth + 1, k) ==> k in seen || k in next
    ensures forall p :: p in granted <==> exists k :: k in seen && k in byKey && p in byKey[k].permissionKeys
  {
    granted, seen, next := granted0, seen0, [];
    for i := 0 to |frontier|
      invariant forall k :: k in seen <==> k in seen0 || k in frontier[..i]
      invariant forall k :: k in next ==> exists c :: c in frontier[..i] && c in byKey && k in byKey[c].parentKeys
      invariant forall c, k :: c in frontier[..i] && c !in seen0 && c in byKey && k in byKey[c].parentKeys ==> k in next
      invariant forall p :: p in granted <==> exists k :: k in seen && k in byKey && p in byKey[k].permissionKeys
    {
      var key := frontier[i];
      assert frontier[..i + 1] == frontier[..i] + [key];
      if key in seen {
        continue;
      }
      seen := seen + {key};
      if key !in byKey {
        continue;
      }
      granted := granted + Elements(byKey[key].permissionKeys);
      next := next + byKey[key].parentKeys;
    }
    assert frontier[..|frontier|] == frontier;
    LevelDone(byKey, start, depth, seen0, frontier, seen, next);
  }

  lemma LevelDone(byKey: Table, start: string, depth: nat, seen0: set<string>, frontier: seq<string>, seen: set<string>, next: seq<string>)
    requires forall k :: k in seen0 <==> Within(byKey, start, depth, k)
    requires forall k :: k in frontier ==> Hop(byKey, start, depth, k)
    requires forall k :: Hop(byKey, start, depth, k) ==> k in seen0 || k in frontier
    requires forall k :: k in seen <==> k in seen0 || k in frontier
    requires forall k :: k in next ==> exists c :: c in frontier && c in byKey && k in byKey[c].parentKeys
    requires forall c, k :: c in frontier && c !in seen0 && c in byKey && k in byKey[c].parentKeys ==> k in next
    ensures forall k :: k in seen <==> Within(byKey, start, depth + 1, k)
    ensures forall k :: k in next ==> Hop(byKey, start, depth + 1, k)
    ensures forall k :: Hop(byKey, start, depth + 1, k) ==> k in seen || k in next
  {
    forall k ensures k in seen <==> Within(byKey, start, depth + 1, k) {
      if k in seen0 {
        var m: nat :| m < depth && Hop(byKey, start, m, k);
        assert m < depth + 1;
      }
      if Within(byKey, start, depth + 1, k) {
        var m: nat :| m < depth + 1 && Hop(byKey, start, m, k);
        if m < depth {
          assert Within(byKey, start, depth, k);
        }
      }
    }
    forall k | Hop(byKey, start, depth + 1, k) ensures k in seen || k in next {
      var c :| Hop(byKey, start, depth, c) && c in byKey && k in byKey[c].parentKeys;
      if c in seen0 {
        var m: nat :| m < depth && Hop(byKey, start, m, c);
        assert Hop(byKey, start, m + 1, k);
        assert Within(byKey, start, depth + 1, k);
      }
    }
  }

  // ---- Agreement with ahead-of-time flattening ----

  /** The rows as sets to flatten. */
  function SetsOf(rows: seq<Row>): (sets: seq<Expand.Set>)
    ensures |sets| == |rows|
    ensures forall i :: 0 <= i < |rows| ==> sets[i] == Expand.Set(rows[i].key, rows[i].permissionKeys, rows[i].parentKeys)
  {
    seq(|rows|, i requires 0 <= i < |rows| => Expand.Set(rows[i].key, rows[i].permissionKeys, rows[i].parentKeys))
  }

  lemma {:induction false} SameTables(rows: seq<Row>)
    ensures Expand.TableOf(SetsOf(rows)).Keys == TableOf(rows).Keys
    ensures forall k :: k in TableOf(rows) ==>
      Expand.TableOf(SetsOf(rows))[k].own == TableOf(rows)[k].permissionKeys && Expand.TableOf(SetsOf(rows))[k].extends_ == TableOf(rows)[k].parentKeys
  {
    if rows != [] {
      var n := |rows| - 1;
      SameTables(rows[..n]);
      assert SetsOf(rows)[..n] == SetsOf(rows[..n]);
    }
  }

  lemma {:induction false} HopIsChain(rows: seq<Row>, start: string, n: nat, key: string) returns (path: seq<string>)
    requires Hop(TableOf(rows), start, n, key)
    ensures Expand.Chain(Expand.TableOf(SetsOf(rows)), path) && path[0] == start && path[|path| - 1] == key
  {
    SameTables(rows);
    if n == 0 {
      path := [start];
    } else {
      var child :| Hop(TableOf(rows), start, n - 1, child) && child in TableOf(rows) && key in TableOf(rows)[child].parentKeys;
      var before := HopIsChain(rows, start, n - 1, child);
      Expand.ExtendTrail(Expand.TableOf(SetsOf(rows)), before, key);
      path := before + [key];
    }
  }

  lemma {:induction false} ChainIsHop(rows: seq<Row>, path: seq<string>)
    requires Expand.Chain(Expand.TableOf(SetsOf(rows)), path)
    ensures Hop(TableOf(rows), path[0], |path| - 1, path[|path| - 1])
    decreases |path|
  {
    SameTables(rows);
    var n := |path| - 1;
    if n > 0 {
      Expand.ChainInit(Expand.TableOf(SetsOf(rows)), path);
      ChainIsHop(rows, path[..n]);
    }
  }

  /**
   * Where inheritance can be flattened under a cap below the level bound, the
   * walk and the flattening give the same list.
   */
  lemma AgreesWithExpandSets(rows: seq<Row>, key: string, cap: nat, walked: seq<string>, flat: seq<string>)
    requires Expand.Flattenable(Expand.TableOf(SetsOf(rows)), cap) && cap < MAX_ROLE_INHERITANCE_DEPTH
    requires key in TableOf(rows)
    requires Ascending(Less, walked)
    requires forall p :: p in walked <==> Confers(TableOf(rows), key, MAX_ROLE_INHERITANCE_DEPTH, p)
    requires Expand.FlatOf(Expand.TableOf(SetsOf(rows)), key, flat)
    ensures walked == flat
  {
    var byID := Expand.TableOf(SetsOf(rows));
    SameTables(rows);
    forall p ensures p in Elements(walked) <==> p in Elements(flat) {
      if p in walked {
        var k :| Within(TableOf(rows), key, MAX_ROLE_INHERITANCE_DEPTH, k) && k in TableOf(rows) && p in TableOf(rows)[k].permissionKeys;
        var m: nat :| m < MAX_ROLE_INHERITANCE_DEPTH && Hop(TableOf(rows), key, m, k);
        var path := HopIsChain(rows, key, m, k);
        assert Expand.Inherits(byID, key, k);
        assert Expand.Member(byID, key, p);
      }
      if p in flat {
        assert Expand.Member(byID, key, p);
        var b :| Expand.Inherits(byID, key, b) && b in byID && p in byID[b].own;
        var path :| Expand.Chain(byID, path) && path[0] == key && path[|path| - 1] == b;
        ChainIsHop(rows, path);
        assert |path| <= cap + 1;
        assert Within(TableOf(rows), key, MAX_ROLE_INHERITANCE_DEPTH, b);
        assert Confers(TableOf(rows), key, MAX_ROLE_INHERITANCE_DEPTH, p);
      }
    }
    LessIsTotal();
    AscendingUnique(Less, walked, flat);
  }
}

/**
 * Flattening set inheritance ahead of time (core/reach/expand.go): a three-colour
 * depth-first search with memoised heights.
 */
module Expand {
  import opened Wrappers
  import opened Sorting

  const DEFAULT_MAX_SET_DEPTH := 5

  datatype Set = Set(id: string, own: seq<string>, extends_: seq<string>)

  datatype ExpandError = EmptyId | DuplicateId(id: string) | UnknownSet(id: string) | SetCycle(at: string) | SetDepth(id: string)

  /** The supplied sets by id. */
  type Table = map<string, Set>

  // ---- Chains of extends ----

  /** Each set of the chain extends the next; every one but the last is supplied. */
  ghost predicate Chain(byID: Table, path: seq<string>) {
    path != [] && forall i :: 0 <= i < |path| - 1 ==> path[i] in byID && path[i + 1] in byID[path[i]].extends_
  }

  /** `to` is `from` or inherited from it through some chain. */
  ghost predicate Inherits(byID: Table, from: string, to: string) {
    exists path :: Chain(byID, path) && path[0] == from && path[|path| - 1] == to
  }

  /** A member of the set or of anything it inherits from. */
  ghost predicate Member(byID: Table, id: string, m: string) {
    exists b :: Inherits(byID, id, b) && b in byID && m in byID[b].own
  }

  /** Every chain from the set has at most `height` steps. */
  ghost predicate ChainsWithin(byID: Table, id: string, height: nat) {
    forall path :: Chain(byID, path) && path[0] == id ==> |path| <= height + 1
  }

  ghost predicate ChainOf(byID: Table, id: string, steps: nat) {
    exists path :: Chain(byID, path) && path[0] == id && |path| == steps + 1
  }

  /** Every parent named anywhere is supplied. */
  ghost predicate ParentsSupplied(byID: Table) {
    forall id, p :: id in byID && p in byID[id].extends_ ==> p in byID
  }

  /** The exact result for one set: the ascending list of its members. */
  ghost predicate FlatOf(byID: Table, id: string, flat: seq<string>) {
    Ascending(Less, flat) && forall m :: m in flat <==> Member(byID, id, m)
  }

  /** The exact height: the longest chain has this many steps. */
  ghost predicate HeightOf(byID: Table, id: string, height: nat) {
    ChainsWithin(byID, id, height) && ChainOf(byID, id, height)
  }

  lemma ChainCons(byID: Table, id: string, path: seq<string>)
    requires Chain(byID, path) && id in byID && path[0] in byID[id].extends_
    ensures Chain(byID, [id] + path)
  {
    var whole := [id] + path;
    forall i | 0 <= i < |whole| - 1 ensures whole[i] in byID && whole[i + 1] in byID[whole[i]].extends_ {
      if i > 0 {
        assert whole[i] == path[i - 1] && whole[i + 1] == path[i];
      }
    }
  }

  lemma ChainTail(byID: Table, path: seq<string>)
    requires Chain(byID, path) && |path| > 1
    ensures Chain(byID, path[1..]) && path[0] in byID && path[1] in byID[path[0]].extends_
  {
    var rest := path[1..];
    forall i | 0 <= i < |rest| - 1 ensures rest[i] in byID && rest[i + 1] in byID[rest[i]].extends_ {
      assert rest[i] == path[i + 1] && rest[i + 1] == path[i + 2];
    }
    assert path[0 + 1] in byID[path[0]].extends_;
  }

  lemma ChainInit(byID: Table, path: seq<string>)
    requires Chain(byID, path) && |path| > 1
    ensures var n := |path| - 1;
            Chain(byID, path[..n]) && path[n - 1] in byID && path[n] in byID[path[n - 1]].extends_
  {
    var n := |path| - 1;
    var init := path[..n];
    forall i | 0 <= i < |init| - 1 ensures init[i] in byID && init[i + 1] in byID[init[i]].extends_ {
      assert init[i] == path[i] && init[i + 1] == path[i + 1];
    }
    assert path[(n - 1) + 1] in byID[path[n - 1]].extends_;
  }

  /** The members of a set are its own and those of its parents. */
  lemma MemberByParents(byID: Table, id: string, m: string)
    requires id in byID
    ensures Member(byID, id, m) <==> m in byID[id].own || exists p :: p in byID[id].extends_ && Member(byID, p, m)
  {
    if Member(byID, id, m) {
      var b :| Inherits(byID, id, b) && b in byID && m in byID[b].own;
      var path :| Chain(byID, path) && path[0] == id && path[|path| - 1] == b;
      if |path| > 1 {
        ChainTail(byID, path);
        var rest := path[1..];
        assert rest[|rest| - 1] == b;
        assert Inherits(byID, rest[0], b);
        assert Member(byID, path[1], m);
      }
    }
    if m in byID[id].own {
      assert Chain(byID, [id]);
      assert [id][0] == id && [id][|[id]| - 1] == id;
      assert Inherits(byID, id, id);
    }
    if p :| p in byID[id].extends_ && Member(byID, p, m) {
      var b :| Inherits(byID, p, b) && b in byID && m in byID[b].own;
      var path :| Chain(byID, path) && path[0] == p && path[|path| - 1] == b;
      ChainCons(byID, id, path);
      var whole := [id] + path;
      assert whole[0] == id && whole[|whole| - 1] == b;
      assert Inherits(byID, id, b);
    }
  }

  lemma ExtendTrail(byID: Table, trail: seq<string>, next: string)
    requires Chain(byID, trail)
    requires trail[|trail| - 1] in byID && next in byID[trail[|trail| - 1]].extends_
    ensures Chain(byID, trail + [next])
  {
    var longer := trail + [next];
    forall i | 0 <= i < |longer| - 1 ensures longer[i] in byID && longer[i + 1] in byID[longer[i]].extends_ {
      if i < |trail| - 1 {
        assert longer[i] == trail[i] && longer[i + 1] == trail[i + 1];
      }
    }
  }

  /** The chain goes on to this set. */
  ghost predicate LeadsTo(byID: Table, trail: seq<string>, id: string) {
    Chain(byID, trail) && trail[|trail| - 1] in byID && id in byID[trail[|trail| - 1]].extends_
  }

  lemma LongerTrail(byID: Table, trail: seq<string>, id: string)
    requires trail != [] ==> LeadsTo(byID, trail, id)
    ensures Chain(byID, trail + [id]) && Elements(trail + [id]) == Elements(trail) + {id}
  {
    if trail != [] {
      ExtendTrail(byID, trail, id);
    }
  }

  /** A set met again while it is open closes a cycle of extends. */
  lemma RepeatIsCycle(byID: Table, maxDepth: nat, trail: seq<string>, id: string)
    requires id in trail && LeadsTo(byID, trail, id)
    ensures Real(byID, maxDepth, SetCycle(id))
  {
    ExtendTrail(byID, trail, id);
    var i :| 0 <= i < |trail| && trail[i] == id;
    var whole := trail + [id];
    var loop := whole[i..];
    forall k | 0 <= k < |loop| - 1 ensures loop[k] in byID && loop[k + 1] in byID[loop[k]].extends_ {
      assert loop[k] == whole[i + k] && loop[k + 1] == whole[i + k + 1];
    }
    assert Chain(byID, loop) && loop[|loop| - 1] == id;
  }

  lemma StepUp(byID: Table, id: string, p: string, h: nat)
    requires id in byID && p in byID[id].extends_ && ChainOf(byID, p, h)
    ensures ChainOf(byID, id, h + 1)
  {
    var path :| Chain(byID, path) && path[0] == p && |path| == h + 1;
    ChainCons(byID, id, path);
    assert ([id] + path)[0] == id && |[id] + path| == h + 2;
  }

  lemma HeightByParents(byID: Table, id: string, height: nat)
    requires id in byID
    requires forall p :: p in byID[id].extends_ ==> height > 0 && ChainsWithin(byID, p, height - 1)
    ensures ChainsWithin(byID, id, height)
  {
    forall path | Chain(byID, path) && path[0] == id ensures |path| <= height + 1 {
      if |path| > 1 {
        ChainTail(byID, path);
        assert ChainsWithin(byID, path[1], height - 1);
        assert path[1..][0] == path[1];
      }
    }
  }

  // ---- The search ----

  datatype Colour = InProgress | Done

  datatype Resolved = Resolved(flat: seq<string>, height: nat)

  /** What is recorded for one finished set is exact and within the cap. */
  ghost predicate Exact(byID: Table, maxDepth: nat, id: string, flat: seq<string>, height: nat) {
    && id in byID
    && FlatOf(byID, id, flat)
    && HeightOf(byID, id, height) && height <= maxDepth
    && (forall p :: p in byID[id].extends_ ==> p in byID)
  }

  class Expander {
    const byID: Table
    const maxDepth: nat
    var state: map<string, Colour>
    var heights: map<string, nat>
    var out: map<string, seq<string>>

    constructor (byID: Table, maxDepth: nat)
      ensures this.byID == byID && this.maxDepth == maxDepth
      ensures state == map[] && heights == map[] && out == map[]
    {
      this.byID := byID;
      this.maxDepth := maxDepth;
      state := map[];
      heights := map[];
      out := map[];
    }

    ghost function Grey(): set<string>
      reads this
    {
      set id | id in state && state[id].InProgress?
    }

    ghost function Black(): set<string>
      reads this
    {
      set id | id in state && state[id].Done?
    }

    ghost predicate Valid()
      reads this
    {
      && (forall id :: id in state ==> id in byID)
      && (forall id :: id in out ==> id in heights && Exact(byID, maxDepth, id, out[id], heights[id]))
      && out.Keys == Black() && heights.Keys == Black()
    }

    /**
     * Flattens one set, reached along the chain `trail` of open sets; meeting an
     * open set again is therefore a genuine cycle.
     */
    method Resolve(id: string, ghost trail: seq<string>) returns (r: Result<Resolved, ExpandError>)
      requires Valid()
      requires if trail == [] then id in byID else LeadsTo(byID, trail, id)
      requires Grey() == Elements(trail)
      modifies this
      ensures Valid()
      ensures r.Ok? ==>
        && id in Black() && Grey() == old(Grey()) && old(Black()) <= Black()
        && Exact(byID, maxDepth, id, r.value.flat, r.value.height)
      ensures r.Err? ==> Real(byID, maxDepth, r.error)
      decreases byID.Keys - Grey(), 0
    {
      if id in state {
        match state[id] {
          case InProgress =>
            assert id in Grey();
            RepeatIsCycle(byID, maxDepth, trail, id);
            return Err(SetCycle(id));
          case Done =>
            return Ok(Resolved(out[id], heights[id]));
        }
      }
      if id !in byID {
        return Err(UnknownSet(id));
      }
      Open(id);
      LongerTrail(byID, trail, id);
      var members, height, failed := Gather(id, trail + [id]);
      if failed.Some? {
        return Err(failed.value);
      }
      if height > maxDepth {
        return Err(SetDepth(id));
      }
      var flat := SortedMembers(members);
      Finish(id, flat, height);
      r := Ok(Resolved(flat, height));
    }

    /** Marks a set as being resolved. */
    method Open(id: string)
      requires Valid() && id in byID && id !in state
      modifies this
      ensures Valid() && Grey() == old(Grey()) + {id} && Black() == old(Black())
    {
      ghost var grey0, black0 := Grey(), Black();
      state := state[id := InProgress];
      assert Grey() == grey0 + {id} && Black() == black0;
    }

    /** Records a finished set. */
    method Finish(id: string, flat: seq<string>, height: nat)
      requires Valid() && id in Grey()
      requires Exact(byID, maxDepth, id, flat, height)
      modifies this
      ensures Valid()
      ensures Grey() == old(Grey()) - {id} && Black() == old(Black()) + {id}
      ensures out[id] == flat && heights[id] == height
    {
      state := state[id := Done];
      heights := heights[id := height];
      out := out[id := flat];
      assert Black() == old(Black()) + {id};
    }

    /** The loop over the parents of an open set. */
    method Gather(id: string, ghost trail: seq<string>) returns (members: set<string>, height: nat, failed: Option<ExpandError>)
      requires Valid()
      requires id in byID && trail != [] && trail[|trail| - 1] == id && Chain(byID, trail)
      requires Grey() == Elements(trail)
      modifies this
      ensures Valid()
      ensures failed.None? ==>
        && Grey() == old(Grey()) && old(Black()) <= Black()
        && (forall p :: p in byID[id].extends_ ==> p in byID)
        && (forall m :: m in members <==> Member(byID, id, m))
        && HeightOf(byID, id, height)
      ensures failed.Some? ==> Real(byID, maxDepth, failed.value)
      decreases byID.Keys - Grey(), 1
    {
      members := Elements(byID[id].own);
      height := 0;
      var parents := byID[id].extends_;
      GatherStart(byID, id);
      for i := 0 to |parents|
        invariant Valid()
        invariant Grey() == old(Grey()) && old(Black()) <= Black()
        invariant Gathered(byID, id, parents[..i], members, height)
      {
        var inherited := Resolve(parents[i], trail);
        if inherited.Err? {
          return members, height, Some(inherited.error);
        }
        GatherUpTo(byID, maxDepth, id, i, members, height, inherited.value);
        height := if inherited.value.height + 1 > height then inherited.value.height + 1 else height;
        members := members + Elements(inherited.value.flat);
      }
      assert parents[..|parents|] == parents;
      GatherEnd(byID, id, members, height);
      failed := None;
    }
  }

  // ---- The loop over parents, in facts about chains alone ----

  ghost predicate Gathered(byID: Table, id: string, parents: seq<string>, members: set<string>, height: nat) {
    && id in byID
    && ChainOf(byID, id, height)
    && (forall p :: p in parents ==> p in byID && height > 0 && ChainsWithin(byID, p, height - 1))
    && (forall m :: m in members <==> m in byID[id].own || exists p :: p in parents && Member(byID, p, m))
  }

  lemma GatherStart(byID: Table, id: string)
    requires id in byID
    ensures Gathered(byID, id, [], Elements(byID[id].own), 0)
  {
    assert Chain(byID, [id]) && [id][0] == id && |[id]| == 0 + 1;
  }

  lemma GatherNext(byID: Table, maxDepth: nat, id: string, parents: seq<string>, p: string, members: set<string>, height: nat, r: Resolved)
    requires Gathered(byID, id, parents, members, height)
    requires p in byID[id].extends_ && Exact(byID, maxDepth, p, r.flat, r.height)
    ensures Gathered(byID, id, parents + [p], members + Elements(r.flat), if r.height + 1 > height then r.height + 1 else height)
  {
    StepUp(byID, id, p, r.height);
    var height' := if r.height + 1 > height then r.height + 1 else height;
    forall q | q in parents + [p] ensures q in byID && ChainsWithin(byID, q, height' - 1) {
      if q in parents {
        assert ChainsWithin(byID, q, height - 1);
      } else {
        assert ChainsWithin(byID, p, r.height);
      }
    }
    forall m ensures m in members + Elements(r.flat) <==> m in byID[id].own || exists q :: q in parents + [p] && Member(byID, q, m) {
      assert m in Elements(r.flat) <==> Member(byID, p, m);
      assert p in parents + [p];
    }
  }

  lemma GatherUpTo(byID: Table, maxDepth: nat, id: string, i: nat, members: set<string>, height: nat, r: Resolved)
    requires id in byID && i < |byID[id].extends_|
    requires Gathered(byID, id, byID[id].extends_[..i], members, height)
    requires Exact(byID, maxDepth, byID[id].extends_[i], r.flat, r.height)
    ensures Gathered(byID, id, byID[id].extends_[..i + 1], members + Elements(r.flat), if r.height + 1 > height then r.height + 1 else height)
  {
    var parents := byID[id].extends_;
    assert parents[..i + 1] == parents[..i] + [parents[i]];
    GatherNext(byID, maxDepth, id, parents[..i], parents[i], members, height, r);
  }

  lemma GatherEnd(byID: Table, id: string, members: set<string>, height: nat)
    requires id in byID && Gathered(byID, id, byID[id].extends_, members, height)
    ensures forall m :: m in members <==> Member(byID, id, m)
    ensures HeightOf(byID, id, height)
  {
    forall m ensures m in members <==> Member(byID, id, m) {
      MemberByParents(byID, id, m);
    }
    HeightByParents(byID, id, height);
  }

  method SortedMembers(members: set<string>) returns (flat: seq<string>)
    ensures Ascending(Less, flat) && forall m :: m in flat <==> m in members
  {
    LessIsTotal();
    flat := SortSet(Less, members);
    assert forall m :: m in flat <==> m in Elements(flat);
  }

  /** The defect an error reports is really there. */
  ghost predicate Real(byID: Table, maxDepth: nat, error: ExpandError) {
    match error
    case SetCycle(at) => exists path :: Chain(byID, path) && |path| > 1 && path[0] == at && path[|path| - 1] == at
    case UnknownSet(id) => id !in byID && exists child :: child in byID && id in byID[child].extends_
    case SetDepth(id) => exists steps: nat :: steps > maxDepth && ChainOf(byID, id, steps)
    case _ => false
  }

  // ---- ExpandSets ----

  /** The supplied sets indexed by id. */
  function TableOf(sets: seq<Set>): Table {
    if sets == [] then map[] else TableOf(sets[..|sets| - 1])[sets[|sets| - 1].id := sets[|sets| - 1]]
  }

  predicate DistinctIds(sets: seq<Set>) {
    && (forall i :: 0 <= i < |sets| ==> sets[i].id != "")
    && (forall i, j :: 0 <= i < j < |sets| ==> sets[i].id != sets[j].id)
  }

  function Cap(maxDepth: int): nat {
    if maxDepth <= 0 then DEFAULT_MAX_SET_DEPTH else maxDepth
  }

  /** Inheritance that can be flattened: parents supplied and no chain longer than the cap. */
  ghost predicate Flattenable(byID: Table, cap: nat) {
    ParentsSupplied(byID) && forall id :: id in byID ==> ChainsWithin(byID, id, cap)
  }

  lemma {:induction false} TableHolds(sets: seq<Set>)
    ensures forall id :: id in TableOf(sets) <==> exists s :: s in sets && s.id == id
    ensures DistinctIds(sets) ==> forall s :: s in sets ==> TableOf(sets)[s.id] == s
  {
    if sets != [] {
      var n := |sets| - 1;
      TableHolds(sets[..n]);
      assert sets == sets[..n] + [sets[n]];
      forall id ensures id in TableOf(sets) <==> exists s :: s in sets && s.id == id {
        if id in TableOf(sets) && id != sets[n].id {
          assert id in TableOf(sets[..n]);
          var s :| s in sets[..n] && s.id == id;
          assert s in sets;
        }
      }
    }
  }

  /** Once round the cycle again gives a longer chain from the same set. */
  lemma {:induction false} CycleExceeds(byID: Table, loop: seq<string>, n: nat)
    requires Chain(byID, loop) && |loop| > 1 && loop[0] == loop[|loop| - 1]
    ensures exists path :: Chain(byID, path) && path[0] == loop[0] && path[|path| - 1] == loop[0] && |path| > n
  {
    if n == 0 {
      assert Chain(byID, loop) && |loop| > 0;
    } else {
      CycleExceeds(byID, loop, n - 1);
      var path :| Chain(byID, path) && path[0] == loop[0] && path[|path| - 1] == loop[0] && |path| > n - 1;
      var longer := path + loop[1..];
      forall i | 0 <= i < |longer| - 1 ensures longer[i] in byID && longer[i + 1] in byID[longer[i]].extends_ {
        if i < |path| - 1 {
          assert longer[i] == path[i] && longer[i + 1] == path[i + 1];
        } else {
          var k := i - (|path| - 1);
          assert longer[i] == loop[k] && longer[i + 1] == loop[k + 1];
        }
      }
      assert Chain(byID, longer) && |longer| > n;
    }
  }

  /** A reported defect means the sets cannot be flattened. */
  lemma DefectBlocks(byID: Table, cap: nat, error: ExpandError)
    requires Real(byID, cap, error)
    ensures !Flattenable(byID, cap)
  {
    match error
    case UnknownSet(id) =>
      var child :| child in byID && id in byID[child].extends_;
    case SetDepth(id) =>
      var steps: nat :| steps > cap && ChainOf(byID, id, steps);
      var path :| Chain(byID, path) && path[0] == id && |path| == steps + 1;
      assert id in byID by {
        assert path[0] in byID;
      }
    case SetCycle(at) =>
      var loop :| Chain(byID, loop) && |loop| > 1 && loop[0] == at && loop[|loop| - 1] == at;
      CycleExceeds(byID, loop, cap + 1);
      var path :| Chain(byID, path) && path[0] == at && path[|path| - 1] == at && |path| > cap + 1;
      assert at in byID by {
        assert loop[0] in byID;
      }
    case _ =>
  }

  /**
   * Flattens inheritance into an ascending member list per set, or names a defect
   * that is really there.
   */
  method ExpandSets(sets: seq<Set>, maxDepth: int) returns (r: Result<map<string, seq<string>>, ExpandError>)
    ensures r.Ok? <==> DistinctIds(sets) && Flattenable(TableOf(sets), if maxDepth <= 0 then 5 else maxDepth)
    ensures r.Ok? ==> r.value.Keys == TableOf(sets).Keys && forall id :: id in r.value ==> FlatOf(TableOf(sets), id, r.value[id])
    ensures r.Err? ==>
      match r.error
      case EmptyId => exists s :: s in sets && s.id == ""
      case DuplicateId(id) => exists i, j :: 0 <= i < j < |sets| && sets[i].id == id && sets[j].id == id
      case _ => DistinctIds(sets) && Real(TableOf(sets), if maxDepth <= 0 then 5 else maxDepth, r.error)
  {
    var indexed := IndexSets(sets);
    if indexed.Err? {
      return Err(indexed.error);
    }
    var byID := indexed.value;
    var search := new Expander(byID, Cap(maxDepth));
    var failed := ResolveAll(search);
    if failed.Some? {
      DefectBlocks(byID, Cap(maxDepth), failed.value);
      return Err(failed.value);
    }
    forall id | id in byID ensures ChainsWithin(byID, id, Cap(maxDepth)) && forall p :: p in byID[id].extends_ ==> p in byID {
      assert Exact(byID, Cap(maxDepth), id, search.out[id], search.heights[id]);
    }
    r := Ok(search.out);
  }

  lemma EarlierSet(sets: seq<Set>, i: nat) returns (k: nat)
    requires i < |sets| && sets[i].id in TableOf(sets[..i])
    ensures k < i && sets[k].id == sets[i].id
  {
    TableHolds(sets[..i]);
    var t :| t in sets[..i] && t.id == sets[i].id;
    k :| 0 <= k < i && sets[k] == t;
  }

  lemma NextSet(sets: seq<Set>, i: nat)
    requires i < |sets| && DistinctIds(sets[..i])
    requires sets[i].id != "" && sets[i].id !in TableOf(sets[..i])
    ensures DistinctIds(sets[..i + 1])
    ensures TableOf(sets[..i + 1]) == TableOf(sets[..i])[sets[i].id := sets[i]]
  {
    var next := sets[..i + 1];
    assert next[..i] == sets[..i] && next[i] == sets[i];
    forall j, k | 0 <= j < k < |next| ensures next[j].id != next[k].id {
      if k == i {
        TableHolds(sets[..i]);
        assert sets[..i][j] in sets[..i];
      } else {
        assert sets[..i][j] == next[j] && sets[..i][k] == next[k];
      }
    }
    forall j | 0 <= j < |next| ensures next[j].id != "" {
      if j < i {
        assert sets[..i][j] == next[j];
      }
    }
  }

  /** The sets by id; an empty or repeated id is an error. */
  method IndexSets(sets: seq<Set>) returns (r: Result<Table, ExpandError>)
    ensures r.Ok? ==> DistinctIds(sets) && r.value == TableOf(sets)
    ensures r.Err? ==> !DistinctIds(sets)
    ensures r.Err? ==>
      || (r.error.EmptyId? && exists s :: s in sets && s.id == "")
      || (r.error.DuplicateId? && exists i, j :: 0 <= i < j < |sets| && sets[i].id == r.error.id && sets[j].id == r.error.id)
  {
    var byID: Table := map[];
    for i := 0 to |sets|
      invariant byID == TableOf(sets[..i]) && DistinctIds(sets[..i])
    {
      var s := sets[i];
      if s.id == "" {
        assert s in sets;
        return Err(EmptyId);
      }
      if s.id in byID {
        var k := EarlierSet(sets, i);
        return Err(DuplicateId(s.id));
      }
      NextSet(sets, i);
      byID := byID[s.id := s];
    }
    assert sets[..|sets|] == sets;
    r := Ok(byID);
  }

  /** Resolves every set, in sorted order. */
  method ResolveAll(search: Expander) returns (failed: Option<ExpandError>)
    requires search.Valid() && search.state == map[]
    modifies search
    ensures search.Valid()
    ensures failed.None? ==> search.out.Keys == search.byID.Keys
    ensures failed.Some? ==> Real(search.byID, search.maxDepth, failed.value)
  {
    var ids := SortedMembers(search.byID.Keys);
    for i := 0 to |ids|
      invariant search.Valid() && search.Grey() == {}
      invariant forall id :: id in ids[..i] ==> id in search.Black()
    {
      assert ids[..i + 1] == ids[..i] + [ids[i]];
      var r := search.Resolve(ids[i], []);
      if r.Err? {
        return Some(r.error);
      }
    }
    assert ids[..|ids|] == ids;
    failed := None;
  }

  // ---- The result does not depend on the input order ----

  /** The same sets in any order, flattened, give the same lists. */
  lemma FlatIsUnique(sets: seq<Set>, other: seq<Set>, id: string, flat: seq<string>, flat': seq<string>)
    requires DistinctIds(sets) && DistinctIds(other)
    requires forall s :: s in sets <==> s in other
    requires FlatOf(TableOf(sets), id, flat) && FlatOf(TableOf(other), id, flat')
    ensures flat == flat'
  {
    SameTable(sets, other);
    LessIsTotal();
    assert Elements(flat) == Elements(flat') by {
      forall m ensures m in Elements(flat) <==> m in Elements(flat') {
        assert m in flat <==> Member(TableOf(sets), id, m);
      }
    }
    AscendingUnique(Less, flat, flat');
  }

  lemma SameTable(sets: seq<Set>, other: seq<Set>)
    requires DistinctIds(sets) && DistinctIds(other)
    requires forall s :: s in sets <==> s in other
    ensures TableOf(sets) == TableOf(other)
  {
    TableHolds(sets);
    TableHolds(other);
    forall id | id in TableOf(sets) ensures id in TableOf(other) && TableOf(sets)[id] == TableOf(other)[id] {
      var s :| s in sets && s.id == id;
      assert s in other;
    }
    forall id | id in TableOf(other) ensures id in TableOf(sets) {
      var s :| s in other && s.id == id;
      assert s in sets;
    }
  }
}
