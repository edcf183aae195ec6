/**
 * The in-memory store (core/reach/graph.go:139-232): edge lists under one text
 * key per object and relation, refined to a finite map from facts to expiries.
 */
module MemoryStores {
  import opened Wrappers
  import opened Graph
  import opened Sorting
  import opened Keys
  import Text

  type Lists = map<string, seq<Edge>>

  function EdgeKey(obj: NodeRef, relation: string): string {
    obj.typ + ":" + obj.id + "#" + relation
  }

  function KeyOf(e: Edge): string {
    EdgeKey(e.obj, e.relation)
  }

  /** A fact without its expiry: the identity of an edge. */
  datatype Fact = Fact(obj: NodeRef, relation: string, subject: SubjectRef)

  function FactOf(e: Edge): Fact {
    Fact(e.obj, e.relation, e.subject)
  }

  // ---- The store as lists under text keys ----

  function At(lists: Lists, key: string): seq<Edge> {
    if key in lists then lists[key] else []
  }

  /** The first index naming the subject, or -1. */
  function IndexOfSubject(list: seq<Edge>, subject: SubjectRef): (i: int)
    ensures -1 <= i < |list|
    ensures i >= 0 ==> list[i].subject == subject
    ensures forall j :: 0 <= j < |list| && (i < 0 || j < i) ==> list[j].subject != subject
  {
    if list == [] then -1
    else if list[0].subject == subject then 0
    else
      var i := IndexOfSubject(list[1..], subject);
      if i < 0 then -1 else i + 1
  }

  function Put(lists: Lists, e: Edge): Lists {
    var list := At(lists, KeyOf(e));
    var i := IndexOfSubject(list, e.subject);
    lists[KeyOf(e) := if i >= 0 then list[i := e] else list + [e]]
  }

  function Drop(lists: Lists, e: Edge): Lists {
    var list := At(lists, KeyOf(e));
    var i := IndexOfSubject(list, e.subject);
    if i < 0 then lists else lists[KeyOf(e) := list[..i] + list[i + 1..]]
  }

  /** Writes edges in order and stops at the first malformed one. */
  function PutAll(lists: Lists, edges: seq<Edge>): Lists
    decreases edges
  {
    if edges == [] || !edges[0].Valid() then lists else PutAll(Put(lists, edges[0]), edges[1..])
  }

  class MemoryStore {
    var byKey: Lists

    constructor ()
      ensures byKey == map[]
    {
      byKey := map[];
    }

    method Write(edges: seq<Edge>) returns (ok: bool)
      modifies this
      ensures byKey == PutAll(old(byKey), edges)
      ensures ok <==> forall e :: e in edges ==> e.Valid()
    {
      for n := 0 to |edges|
        invariant PutAll(byKey, edges[n..]) == PutAll(old(byKey), edges)
        invariant forall e :: e in edges[..n] ==> e.Valid()
      {
        var e := edges[n];
        assert edges[n..][0] == e && edges[n..][1..] == edges[n + 1..];
        assert edges[..n + 1] == edges[..n] + [e];
        if !e.Valid() {
          assert e in edges;
          return false;
        }
        var list := At(byKey, KeyOf(e));
        var dup := IndexOfEdge(list, e);
        if dup >= 0 {
          byKey := byKey[KeyOf(e) := list[dup := e]];
        } else {
          byKey := byKey[KeyOf(e) := list + [e]];
        }
      }
      assert edges[..|edges|] == edges;
      ok := true;
    }

    method Delete(e: Edge) returns (present: bool)
      modifies this
      ensures byKey == Drop(old(byKey), e)
      ensures present <==> exists x :: x in At(old(byKey), KeyOf(e)) && x.subject == e.subject
    {
      var list := At(byKey, KeyOf(e));
      var i := IndexOfEdge(list, e);
      if i < 0 {
        return false;
      }
      assert list[i] in list;
      byKey := byKey[KeyOf(e) := list[..i] + list[i + 1..]];
      present := true;
    }

    method Edges(obj: NodeRef, relation: string) returns (list: seq<Edge>)
      ensures list == At(byKey, EdgeKey(obj, relation))
      ensures forall names, facts :: Refines(names, byKey, facts) && Named(names, obj, relation) ==> ListsFacts(list, facts, obj, relation)
    {
      forall names, facts | Refines(names, byKey, facts) && Named(names, obj, relation) ensures ListsFacts(At(byKey, EdgeKey(obj, relation)), facts, obj, relation) {
        ForwardViewIsExact(names, byKey, facts, obj, relation);
      }
      list := At(byKey, EdgeKey(obj, relation));
    }

    /** The edges naming the subject, in the order of their text; `stamp` formats an instant. */
    method EdgesForSubject(subject: NodeRef, stamp: int -> string) returns (out: seq<Edge>)
      ensures multiset(out) == SubjectEdges(byKey, byKey.Keys, subject)
      ensures Ordered(stamp, out)
    {
      out := [];
      var rest := byKey.Keys;
      while rest != {}
        invariant rest <= byKey.Keys
        invariant multiset(out) + SubjectEdges(byKey, rest, subject) == SubjectEdges(byKey, byKey.Keys, subject)
      {
        var key :| key in rest;
        SubjectEdgesSplit(byKey, rest, key, subject);
        var mine := NamingSubject(byKey[key], subject);
        out := out + mine;
        rest := rest - {key};
      }
      out := SortByText(stamp, out);
    }

    method Len() returns (n: nat)
      ensures n == Count(byKey, byKey.Keys)
    {
      n := 0;
      var rest := byKey.Keys;
      while rest != {}
        invariant rest <= byKey.Keys
        invariant n + Count(byKey, rest) == Count(byKey, byKey.Keys)
      {
        var key :| key in rest;
        CountSplit(byKey, rest, key);
        n := n + |byKey[key]|;
        rest := rest - {key};
      }
    }
  }

  // ---- Edges in the order of their text ----

  function EdgeText(stamp: int -> string, e: Edge): string {
    e.obj.ToString() + " #" + e.relation + " " + e.subject.node.ToString() + UsersetText(e.subject) + ExpiryText(stamp, e)
  }

  lemma SameTail(a: string, b: string, tail: string)
    requires a + tail == b + tail
    ensures a == b
  {
    assert |a| == |b| && (a + tail)[..|a|] == a && (b + tail)[..|b|] == b;
  }

  lemma HeadAndTail(o: string, r: string, n: string, u: string, x: string)
    ensures o + " #" + r + " " + n + u + x == (o + " " + (['#'] + r)) + (" " + n + u + x)
  {
    assert " #" == " " + ['#'];
    assert o + " #" + r == o + " " + (['#'] + r);
  }

  function UsersetText(s: SubjectRef): string {
    if s.IsUserset() then "#" + s.relation else ""
  }

  function ExpiryText(stamp: int -> string, e: Edge): string {
    if e.expiresAt.Some? then " expires " + stamp(e.expiresAt.value) else ""
  }

  /** Edges of one subject that stand equally long share a text only if they are one edge, whatever the ids hold. */
  lemma EdgeTextTellsApart(stamp: int -> string, a: Edge, b: Edge)
    requires Text.ValidIdent(a.obj.typ) && Text.ValidIdent(a.relation) && Text.ValidIdent(b.obj.typ) && Text.ValidIdent(b.relation)
    requires a.subject == b.subject && a.expiresAt == b.expiresAt
    ensures EdgeText(stamp, a) == EdgeText(stamp, b) <==> a == b
  {
    if EdgeText(stamp, a) == EdgeText(stamp, b) {
      var n, u, x := a.subject.node.ToString(), UsersetText(a.subject), ExpiryText(stamp, a);
      HeadAndTail(a.obj.ToString(), a.relation, n, u, x);
      HeadAndTail(b.obj.ToString(), b.relation, n, u, x);
      SameTail(a.obj.ToString() + " " + (['#'] + a.relation), b.obj.ToString() + " " + (['#'] + b.relation), " " + n + u + x);
      SameHead(a.obj, a.relation, b.obj, b.relation);
    }
  }

  lemma SameHead(a: NodeRef, r: string, b: NodeRef, s: string)
    requires Text.ValidIdent(a.typ) && Text.ValidIdent(r) && Text.ValidIdent(b.typ) && Text.ValidIdent(s)
    requires a.ToString() + " " + (['#'] + r) == b.ToString() + " " + (['#'] + s)
    ensures a == b && r == s
  {
    Text.LastSplit(a.ToString() + " ", r, b.ToString() + " ", s, '#');
    SameTail(a.ToString(), b.ToString(), " ");
    assert a.ToString() == a.typ + ([':'] + a.id) && b.ToString() == b.typ + ([':'] + b.id);
    Text.FirstSplit(a.typ, a.id, b.typ, b.id, ':');
  }

  /** No edge comes after one with a greater text. */
  predicate Ordered(stamp: int -> string, edges: seq<Edge>) {
    forall i, j :: 0 <= i < j < |edges| ==> !Less(EdgeText(stamp, edges[j]), EdgeText(stamp, edges[i]))
  }

  function InsertByText(stamp: int -> string, e: Edge, edges: seq<Edge>): (r: seq<Edge>)
    ensures multiset(r) == multiset(edges) + multiset{e}
  {
    if edges == [] || Less(EdgeText(stamp, e), EdgeText(stamp, edges[0])) then [e] + edges
    else
      assert edges == [edges[0]] + edges[1..];
      [edges[0]] + InsertByText(stamp, e, edges[1..])
  }

  lemma NotAfter(x: string, y: string, z: string)
    ensures !Less(y, x) && !Less(z, y) ==> !Less(z, x)
    ensures Less(x, y) && !Less(z, y) ==> !Less(z, x)
    ensures Less(x, y) ==> !Less(y, x)
  {
    LessIsTotal();
  }

  lemma {:induction false} InsertKeepsOrder(stamp: int -> string, e: Edge, edges: seq<Edge>)
    requires Ordered(stamp, edges)
    ensures Ordered(stamp, InsertByText(stamp, e, edges))
    decreases |edges|
  {
    if edges == [] { return; }
    var first, text := EdgeText(stamp, edges[0]), EdgeText(stamp, e);
    NotAfter(text, first, first);
    if Less(text, first) {
      forall j | 0 <= j < |edges| ensures !Less(EdgeText(stamp, edges[j]), text) {
        NotAfter(text, first, EdgeText(stamp, edges[j]));
      }
    } else {
      InsertKeepsOrder(stamp, e, edges[1..]);
      var rest := InsertByText(stamp, e, edges[1..]);
      forall j | 0 <= j < |rest| ensures !Less(EdgeText(stamp, rest[j]), first) {
        assert rest[j] in multiset(rest);
        assert rest[j] == e || rest[j] in edges[1..];
      }
    }
  }

  method SortByText(stamp: int -> string, edges: seq<Edge>) returns (r: seq<Edge>)
    ensures multiset(r) == multiset(edges) && Ordered(stamp, r)
  {
    r := [];
    for i := 0 to |edges|
      invariant multiset(r) == multiset(edges[..i]) && Ordered(stamp, r)
    {
      assert edges[..i + 1] == edges[..i] + [edges[i]];
      InsertKeepsOrder(stamp, edges[i], r);
      r := InsertByText(stamp, edges[i], r);
    }
    assert edges[..|edges|] == edges;
  }

  method IndexOfEdge(list: seq<Edge>, want: Edge) returns (i: int)
    ensures i == IndexOfSubject(list, want.subject)
  {
    for k := 0 to |list|
      invariant forall j :: 0 <= j < k ==> list[j].subject != want.subject
    {
      if list[k].subject == want.subject {
        return k;
      }
    }
    i := -1;
  }

  method NamingSubject(list: seq<Edge>, subject: NodeRef) returns (out: seq<Edge>)
    ensures multiset(out) == Naming(list, subject)
  {
    out := [];
    for k := 0 to |list|
      invariant multiset(out) == Naming(list[..k], subject)
    {
      assert list[..k + 1][..k] == list[..k];
      if list[k].subject.node == subject {
        out := out + [list[k]];
      }
    }
    assert list[..|list|] == list;
  }

  /** The edges of a list naming the subject, with multiplicity. */
  ghost function Naming(list: seq<Edge>, subject: NodeRef): multiset<Edge> {
    if list == [] then multiset{}
    else
      var last := list[|list| - 1];
      Naming(list[..|list| - 1], subject) + (if last.subject.node == subject then multiset{last} else multiset{})
  }

  ghost function SubjectEdges(lists: Lists, keys: set<string>, subject: NodeRef): multiset<Edge>
    requires keys <= lists.Keys
  {
    if keys == {} then multiset{}
    else
      var key :| key in keys;
      Naming(lists[key], subject) + SubjectEdges(lists, keys - {key}, subject)
  }

  ghost function Count(lists: Lists, keys: set<string>): nat
    requires keys <= lists.Keys
  {
    if keys == {} then 0
    else
      var key :| key in keys;
      |lists[key]| + Count(lists, keys - {key})
  }

  /** The order in which the keys are visited does not matter. */
  lemma {:induction false} SubjectEdgesSplit(lists: Lists, keys: set<string>, key: string, subject: NodeRef)
    requires keys <= lists.Keys && key in keys
    ensures SubjectEdges(lists, keys, subject) == Naming(lists[key], subject) + SubjectEdges(lists, keys - {key}, subject)
    decreases keys
  {
    var first :| first in keys && SubjectEdges(lists, keys, subject) == Naming(lists[first], subject) + SubjectEdges(lists, keys - {first}, subject);
    if first != key {
      SubjectEdgesSplit(lists, keys - {first}, key, subject);
      SubjectEdgesSplit(lists, keys - {key}, first, subject);
      assert keys - {first} - {key} == keys - {key} - {first};
    }
  }

  lemma {:induction false} CountSplit(lists: Lists, keys: set<string>, key: string)
    requires keys <= lists.Keys && key in keys
    ensures Count(lists, keys) == |lists[key]| + Count(lists, keys - {key})
    decreases keys
  {
    var first :| first in keys && Count(lists, keys) == |lists[first]| + Count(lists, keys - {first});
    if first != key {
      CountSplit(lists, keys - {first}, key);
      CountSplit(lists, keys - {key}, first);
      assert keys - {first} - {key} == keys - {key} - {first};
    }
  }

  // ---- Refinement to a map of facts ----

  /** The vocabulary of a store: the types of its objects and its relations. */
  datatype Names = Names(types: iset<string>, relations: iset<string>)

  ghost predicate Named(names: Names, obj: NodeRef, relation: string) {
    obj.typ in names.types && relation in names.relations
  }

  /** No type is another one followed by a colon, no relation another one preceded by a hash. */
  ghost predicate ClearNames(names: Names) {
    Clear(names.types, ':', names.relations, '#')
  }

  lemma KeyIsComposed(obj: NodeRef, relation: string)
    ensures EdgeKey(obj, relation) == Composed(obj.typ, ':', obj.id, '#', relation)
  {
  }

  /** Under clear names two objects and relations share a key only if they are the same. */
  lemma KeyIsInjective(names: Names, obj: NodeRef, relation: string, obj': NodeRef, relation': string)
    requires ClearNames(names) && Named(names, obj, relation) && Named(names, obj', relation')
    requires EdgeKey(obj, relation) == EdgeKey(obj', relation')
    ensures obj == obj' && relation == relation'
  {
    KeyIsComposed(obj, relation);
    KeyIsComposed(obj', relation');
    ClearTellsApart(names.types, ':', names.relations, '#', obj.typ, obj.id, relation, obj'.typ, obj'.id, relation');
  }

  ghost predicate Stores(lists: Lists, e: Edge) {
    e in At(lists, KeyOf(e))
  }

  /** Edges of the vocabulary under one key, at most one per subject. */
  ghost predicate KeyedList(names: Names, key: string, list: seq<Edge>) {
    && (forall i :: 0 <= i < |list| ==> KeyOf(list[i]) == key && Named(names, list[i].obj, list[i].relation))
    && (forall i, j :: 0 <= i < j < |list| ==> list[i].subject != list[j].subject)
  }

  ghost predicate Keyed(names: Names, lists: Lists) {
    ClearNames(names) && AllKeyed(names, lists)
  }

  ghost predicate AllKeyed(names: Names, lists: Lists) {
    forall key :: key in lists ==> KeyedList(names, key, lists[key])
  }

  /** The lists hold exactly the facts of the map, each with its expiry. */
  ghost predicate Refines(names: Names, lists: Lists, facts: map<Fact, Option<int>>) {
    Keyed(names, lists) && Holds(lists, facts)
  }

  ghost predicate Holds(lists: Lists, facts: map<Fact, Option<int>>) {
    forall e: Edge :: Stores(lists, e) <==> FactOf(e) in facts && facts[FactOf(e)] == e.expiresAt
  }

  /** Within a keyed store the subject decides the edge of a list. */
  lemma SubjectDecides(names: Names, lists: Lists, e: Edge, x: Edge)
    requires Keyed(names, lists) && Named(names, e.obj, e.relation)
    requires x in At(lists, KeyOf(e))
    ensures x.obj == e.obj && x.relation == e.relation
  {
    var list := lists[KeyOf(e)];
    var i :| 0 <= i < |list| && list[i] == x;
    KeyIsInjective(names, x.obj, x.relation, e.obj, e.relation);
  }

  lemma PutKeyed(names: Names, lists: Lists, e: Edge)
    requires Keyed(names, lists) && Named(names, e.obj, e.relation)
    ensures Keyed(names, Put(lists, e))
  {
    KeyedWith(names, At(lists, KeyOf(e)), e);
  }

  lemma KeyedWith(names: Names, list: seq<Edge>, e: Edge)
    requires KeyedList(names, KeyOf(e), list) && Named(names, e.obj, e.relation)
    ensures var i := IndexOfSubject(list, e.subject);
            KeyedList(names, KeyOf(e), if i >= 0 then list[i := e] else list + [e])
  {
  }

  /** After a write, a list of the edge's key holds the edge, and of other facts what it held. */
  lemma PutAt(names: Names, lists: Lists, e: Edge, x: Edge)
    requires Keyed(names, lists) && Named(names, e.obj, e.relation) && KeyOf(x) == KeyOf(e)
    ensures Stores(Put(lists, e), x) <==> if FactOf(x) == FactOf(e) then x == e else Stores(lists, x)
  {
    var list := At(lists, KeyOf(e));
    var i := IndexOfSubject(list, e.subject);
    var now := Put(lists, e)[KeyOf(e)];
    var at := if i >= 0 then i else |list|;
    assert now[at] == e;
    assert forall j :: 0 <= j < |list| && j != i ==> now[j] == list[j];
    if x in now && x != e {
      var j :| 0 <= j < |now| && now[j] == x;
      assert j < |list| && list[j] == x;
    }
    if x in list {
      SubjectDecides(names, lists, e, x);
      var j :| 0 <= j < |list| && list[j] == x;
      if j != i {
        assert now[j] == x;
      }
    }
  }

  /** Writing an edge sets its fact's expiry: the last write wins, nothing is duplicated. */
  lemma PutRefines(names: Names, lists: Lists, facts: map<Fact, Option<int>>, e: Edge)
    requires Refines(names, lists, facts) && Named(names, e.obj, e.relation)
    ensures Refines(names, Put(lists, e), facts[FactOf(e) := e.expiresAt])
  {
    PutKeyed(names, lists, e);
    forall x: Edge ensures Stores(Put(lists, e), x) <==> if FactOf(x) == FactOf(e) then x == e else Stores(lists, x) {
      if KeyOf(x) == KeyOf(e) {
        PutAt(names, lists, e, x);
      } else {
        assert At(Put(lists, e), KeyOf(x)) == At(lists, KeyOf(x));
      }
    }
  }

  /** Deleting an edge removes its fact, whatever expiry was given. */
  lemma DropRefines(names: Names, lists: Lists, facts: map<Fact, Option<int>>, e: Edge)
    requires Refines(names, lists, facts) && Named(names, e.obj, e.relation)
    ensures Refines(names, Drop(lists, e), facts - {FactOf(e)})
  {
    DropKeyed(names, lists, e);
    forall x: Edge ensures Stores(Drop(lists, e), x) <==> Stores(lists, x) && FactOf(x) != FactOf(e) {
      DropOne(names, lists, e, x);
    }
  }

  lemma DropKeyed(names: Names, lists: Lists, e: Edge)
    requires Keyed(names, lists)
    ensures Keyed(names, Drop(lists, e))
  {
    var i := IndexOfSubject(At(lists, KeyOf(e)), e.subject);
    if i >= 0 {
      KeyedWithout(names, KeyOf(e), lists[KeyOf(e)], i);
    }
  }

  lemma KeyedWithout(names: Names, key: string, list: seq<Edge>, i: nat)
    requires KeyedList(names, key, list) && i < |list|
    ensures KeyedList(names, key, list[..i] + list[i + 1..])
  {
    var kept := list[..i] + list[i + 1..];
    assert forall j :: 0 <= j < |kept| ==> kept[j] == list[if j < i then j else j + 1];
  }

  lemma DropStores(names: Names, lists: Lists, e: Edge, x: Edge)
    requires Keyed(names, lists) && Named(names, e.obj, e.relation) && KeyOf(x) == KeyOf(e)
    requires IndexOfSubject(At(lists, KeyOf(e)), e.subject) >= 0
    ensures Stores(Drop(lists, e), x) <==> Stores(lists, x) && FactOf(x) != FactOf(e)
  {
    DropAt(names, lists, e, IndexOfSubject(At(lists, KeyOf(e)), e.subject), x);
  }

  lemma DropOne(names: Names, lists: Lists, e: Edge, x: Edge)
    requires Keyed(names, lists) && Named(names, e.obj, e.relation)
    ensures Stores(Drop(lists, e), x) <==> Stores(lists, x) && FactOf(x) != FactOf(e)
  {
    if IndexOfSubject(At(lists, KeyOf(e)), e.subject) < 0 {
      assert FactOf(x) == FactOf(e) ==> KeyOf(x) == KeyOf(e) && x.subject == e.subject;
    } else if KeyOf(x) == KeyOf(e) {
      DropStores(names, lists, e, x);
    } else {
      assert At(Drop(lists, e), KeyOf(x)) == At(lists, KeyOf(x));
    }
  }

  lemma KeptWithout(list: seq<Edge>, i: nat, x: Edge)
    requires i < |list|
    ensures x in list[..i] + list[i + 1..] <==> exists j :: 0 <= j < |list| && j != i && list[j] == x
  {
    var kept := list[..i] + list[i + 1..];
    if x in kept {
      var k :| 0 <= k < |kept| && kept[k] == x;
      assert list[if k < i then k else k + 1] == x;
    }
    if j :| 0 <= j < |list| && j != i && list[j] == x {
      assert kept[if j < i then j else j - 1] == x;
    }
  }

  lemma DropAt(names: Names, lists: Lists, e: Edge, i: nat, x: Edge)
    requires Keyed(names, lists) && Named(names, e.obj, e.relation) && KeyOf(x) == KeyOf(e)
    requires i < |At(lists, KeyOf(e))| && At(lists, KeyOf(e))[i].subject == e.subject
    ensures var list := At(lists, KeyOf(e));
            x in list[..i] + list[i + 1..] <==> x in list && FactOf(x) != FactOf(e)
  {
    var list := At(lists, KeyOf(e));
    KeptWithout(list, i, x);
    if x in list {
      SubjectDecides(names, lists, e, x);
      var j :| 0 <= j < |list| && list[j] == x;
      assert x.subject == e.subject <==> j == i;
    }
  }

  // ---- Whole histories ----

  datatype Op = OpWrite(edge: Edge) | OpDelete(edge: Edge)

  function Run(ops: seq<Op>): Lists {
    if ops == [] then map[]
    else
      var before := Run(ops[..|ops| - 1]);
      match ops[|ops| - 1]
      case OpWrite(e) => if e.Valid() then Put(before, e) else before
      case OpDelete(e) => Drop(before, e)
  }

  /** The same history on a map from facts to expiries. */
  function Model(ops: seq<Op>): map<Fact, Option<int>> {
    if ops == [] then map[]
    else
      var before := Model(ops[..|ops| - 1]);
      match ops[|ops| - 1]
      case OpWrite(e) => if e.Valid() then before[FactOf(e) := e.expiresAt] else before
      case OpDelete(e) => before - {FactOf(e)}
  }

  /** The history writes and deletes edges of the vocabulary only. */
  ghost predicate Within(names: Names, ops: seq<Op>) {
    forall op :: op in ops ==> Named(names, op.edge.obj, op.edge.relation)
  }

  /** Through any history over clear names the store is the map. */
  lemma {:induction false} StoreRefinesMap(names: Names, ops: seq<Op>)
    requires ClearNames(names) && Within(names, ops)
    ensures Refines(names, Run(ops), Model(ops))
  {
    if ops != [] {
      var before := ops[..|ops| - 1];
      var last := ops[|ops| - 1];
      assert last in ops && forall op :: op in before ==> op in ops;
      StoreRefinesMap(names, before);
      match last
      case OpWrite(e) =>
        if e.Valid() { PutRefines(names, Run(before), Model(before), e); }
      case OpDelete(e) => DropRefines(names, Run(before), Model(before), e);
    }
  }

  /** Types and relations an edge may have. */
  ghost predicate UsableNames(names: Names) {
    && names.types != iset{} && (forall typ :: typ in names.types ==> !Text.Blank(typ) && typ != WILDCARD)
    && names.relations != iset{} && (forall rel :: rel in names.relations ==> !Text.Blank(rel))
  }

  /** Under one key and one subject the second edge takes the place of the first, a different fact. */
  lemma SharedKeyLoses(e: Edge, e': Edge)
    requires e.Valid() && e'.Valid() && KeyOf(e) == KeyOf(e') && e.subject == e'.subject && FactOf(e) != FactOf(e')
    ensures !Holds(Run([OpWrite(e), OpWrite(e')]), Model([OpWrite(e), OpWrite(e')]))
  {
    var both, first, none := [OpWrite(e), OpWrite(e')], [OpWrite(e)], [];
    assert both[..1] == first && first[..0] == none;
    assert Run(none) == map[] && Model(none) == map[];
    assert Run(first) == map[KeyOf(e) := [e]] && Model(first) == map[FactOf(e) := e.expiresAt] by {
      assert [] + [e] == [e];
    }
    assert IndexOfSubject([e], e.subject) == 0 && [e][0 := e'] == [e'];
    assert At(Run(both), KeyOf(e)) == [e'];
    assert FactOf(e) in Model(both) && Model(both)[FactOf(e)] == e.expiresAt;
    assert !Stores(Run(both), e);
  }

  /** Two names that clash give two valid edges that share a key. */
  lemma UnclearNamesCollide(names: Names) returns (e: Edge, e': Edge)
    requires UsableNames(names) && !ClearNames(names)
    ensures e.Valid() && e'.Valid() && Named(names, e.obj, e.relation) && Named(names, e'.obj, e'.relation)
    ensures KeyOf(e) == KeyOf(e') && e.subject == e'.subject && FactOf(e) != FactOf(e')
  {
    var s := SubjectRef(NodeRef("u", "x"), "");
    assert s.node.typ[0] == 'u' && s.node.id[0] == 'x' && "*"[0] == '*';
    if t, u :| t in names.types && u in names.types && Lengthens(u, t, ':') {
      var r :| r in names.relations;
      var id, id' := ExtendedCollides(u, t, ':', '#', r);
      e, e' := Edge(NodeRef(t, id), r, s, None), Edge(NodeRef(u, id'), r, s, None);
      KeyIsComposed(e.obj, r);
      KeyIsComposed(e'.obj, r);
    } else {
      var r, l :| r in names.relations && l in names.relations && Precedes(l, r, '#');
      var t :| t in names.types;
      var id, id' := PrecededCollides(l, r, ':', '#', t);
      e, e' := Edge(NodeRef(t, id), r, s, None), Edge(NodeRef(t, id'), l, s, None);
      KeyIsComposed(e.obj, r);
      KeyIsComposed(e'.obj, l);
    }
  }

  /**
   * The store is the map of facts through every history over a vocabulary exactly
   * when no type of it extends another past a colon and no relation of it precedes
   * another past a hash.
   */
  lemma StoreIsMapIff(names: Names)
    requires UsableNames(names)
    ensures (forall ops :: Within(names, ops) ==> Holds(Run(ops), Model(ops))) <==> ClearNames(names)
  {
    if ClearNames(names) {
      forall ops | Within(names, ops) ensures Holds(Run(ops), Model(ops)) {
        StoreRefinesMap(names, ops);
      }
    } else {
      var e, e' := UnclearNamesCollide(names);
      SharedKeyLoses(e, e');
      assert Within(names, [OpWrite(e), OpWrite(e')]);
    }
  }

  /** Names without colons and hashes, as validated schemas have them, are clear. */
  lemma PlainNamesAreClear(names: Names)
    requires forall typ :: typ in names.types ==> ':' !in typ
    requires forall rel :: rel in names.relations ==> '#' !in rel
    ensures ClearNames(names)
  {
    PlainIsClear(names.types, ':', names.relations, '#');
  }

  /** The facts stored under some of the keys. */
  ghost function FactsUnder(lists: Lists, keys: set<string>): set<Fact>
    requires keys <= lists.Keys
  {
    set key, e | key in keys && e in lists[key] :: FactOf(e)
  }

  lemma {:induction false} ListSize(list: seq<Edge>)
    requires forall i, j :: 0 <= i < j < |list| ==> list[i].subject != list[j].subject
    ensures |ListFacts(list)| == |list|
  {
    if list != [] {
      var n := |list| - 1;
      ListSize(list[..n]);
      assert list == list[..n] + [list[n]];
      assert FactOf(list[n]) !in ListFacts(list[..n]);
      assert ListFacts(list) == ListFacts(list[..n]) + {FactOf(list[n])};
    }
  }

  /** The facts of one list. */
  ghost function ListFacts(list: seq<Edge>): set<Fact> {
    set e | e in list :: FactOf(e)
  }

  lemma FactsSplit(names: Names, lists: Lists, keys: set<string>, key: string)
    requires AllKeyed(names, lists) && keys <= lists.Keys && key in keys
    ensures FactsUnder(lists, keys) == ListFacts(lists[key]) + FactsUnder(lists, keys - {key})
    ensures ListFacts(lists[key]) !! FactsUnder(lists, keys - {key})
  {
    forall f | f in ListFacts(lists[key]) ensures EdgeKey(f.obj, f.relation) == key {
      var e :| e in lists[key] && f == FactOf(e);
      var i :| 0 <= i < |lists[key]| && lists[key][i] == e;
    }
    forall f | f in FactsUnder(lists, keys - {key}) ensures EdgeKey(f.obj, f.relation) in keys - {key} {
      var k, e :| k in keys - {key} && e in lists[k] && f == FactOf(e);
      var i :| 0 <= i < |lists[k]| && lists[k][i] == e;
    }
  }

  lemma {:induction false} CountIsFacts(names: Names, lists: Lists, keys: set<string>)
    requires AllKeyed(names, lists) && keys <= lists.Keys
    ensures Count(lists, keys) == |FactsUnder(lists, keys)|
    decreases keys
  {
    if keys != {} {
      var key :| key in keys;
      CountSplit(lists, keys, key);
      CountIsFacts(names, lists, keys - {key});
      ListSize(lists[key]);
      FactsSplit(names, lists, keys, key);
    }
  }

  /** Len is the number of facts. */
  lemma LenIsMapSize(names: Names, lists: Lists, facts: map<Fact, Option<int>>)
    requires Refines(names, lists, facts)
    ensures Count(lists, lists.Keys) == |facts|
  {
    CountIsFacts(names, lists, lists.Keys);
    FactsAreStored(names, lists, facts);
  }

  lemma FactsAreStored(names: Names, lists: Lists, facts: map<Fact, Option<int>>)
    requires Refines(names, lists, facts)
    ensures FactsUnder(lists, lists.Keys) == facts.Keys
  {
    forall f | f in facts ensures f in FactsUnder(lists, lists.Keys) {
      var e := Edge(f.obj, f.relation, f.subject, facts[f]);
      assert FactOf(e) == f && Stores(lists, e);
    }
    forall f | f in FactsUnder(lists, lists.Keys) ensures f in facts {
      var key, e :| key in lists.Keys && e in lists[key] && FactOf(e) == f;
      assert KeyOf(e) == key;
      assert Stores(lists, e);
    }
  }

  lemma {:induction false} NamingCounts(list: seq<Edge>, subject: NodeRef, e: Edge)
    ensures Naming(list, subject)[e] == if e.subject.node == subject then multiset(list)[e] else 0
  {
    if list != [] {
      var n := |list| - 1;
      assert list == list[..n] + [list[n]];
      NamingCounts(list[..n], subject, e);
    }
  }

  lemma {:induction false} NotUnderOtherKeys(names: Names, lists: Lists, keys: set<string>, subject: NodeRef, e: Edge)
    requires AllKeyed(names, lists) && keys <= lists.Keys && KeyOf(e) !in keys
    ensures SubjectEdges(lists, keys, subject)[e] == 0
    decreases keys
  {
    if keys != {} {
      var key :| key in keys;
      SubjectEdgesSplit(lists, keys, key, subject);
      NotUnderOtherKeys(names, lists, keys - {key}, subject, e);
      NamingCounts(lists[key], subject, e);
      assert e !in lists[key];
    }
  }

  lemma {:induction false} OnceInKeyedList(list: seq<Edge>, e: Edge)
    requires forall i, j :: 0 <= i < j < |list| ==> list[i].subject != list[j].subject
    ensures multiset(list)[e] == if e in list then 1 else 0
  {
    if list != [] {
      var n := |list| - 1;
      assert list == list[..n] + [list[n]];
      OnceInKeyedList(list[..n], e);
    }
  }

  /** The reverse view holds each edge naming the subject once, and nothing else. */
  lemma ReverseViewIsExact(names: Names, lists: Lists, subject: NodeRef, e: Edge)
    requires Keyed(names, lists)
    ensures SubjectEdges(lists, lists.Keys, subject)[e] == if Stores(lists, e) && e.subject.node == subject then 1 else 0
  {
    if KeyOf(e) in lists {
      SubjectEdgesSplit(lists, lists.Keys, KeyOf(e), subject);
      NotUnderOtherKeys(names, lists, lists.Keys - {KeyOf(e)}, subject, e);
      NamingCounts(lists[KeyOf(e)], subject, e);
      OnceInKeyedList(lists[KeyOf(e)], e);
    } else {
      NotUnderOtherKeys(names, lists, lists.Keys, subject, e);
    }
  }

  /** The list holds the facts of one object and relation, each once with its expiry, and nothing else. */
  ghost predicate ListsFacts(list: seq<Edge>, facts: map<Fact, Option<int>>, obj: NodeRef, relation: string) {
    && (forall e: Edge :: e in list <==> e.obj == obj && e.relation == relation && FactOf(e) in facts && facts[FactOf(e)] == e.expiresAt)
    && (forall i, j :: 0 <= i < j < |list| ==> list[i].subject != list[j].subject)
  }

  /** The forward view of an object of the vocabulary holds exactly its own facts. */
  lemma ForwardViewIsExact(names: Names, lists: Lists, facts: map<Fact, Option<int>>, obj: NodeRef, relation: string)
    requires Refines(names, lists, facts) && Named(names, obj, relation)
    ensures ListsFacts(At(lists, EdgeKey(obj, relation)), facts, obj, relation)
  {
    var list := At(lists, EdgeKey(obj, relation));
    forall e: Edge ensures e in list <==> e.obj == obj && e.relation == relation && FactOf(e) in facts && facts[FactOf(e)] == e.expiresAt {
      if e in list {
        SubjectDecides(names, lists, Edge(obj, relation, e.subject, None), e);
        assert Stores(lists, e);
      }
    }
    if list != [] {
      assert KeyedList(names, EdgeKey(obj, relation), list);
    }
  }
}
