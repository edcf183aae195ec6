/** The two failure-carrying datatypes shared by every component. */
module Wrappers {
  datatype Option<+T> = None | Some(value: T)

  datatype Result<+T, +E> = Ok(value: T) | Err(error: E)
}

/**
 * Ascending lists of sets, as Go's sort.Strings and sort.Slice leave them. Go's
 * string order on valid UTF-8 is the order on code points.
 */
module Sorting {
  import opened Graph

  ghost predicate TotalOrder<T(!new)>(less: (T, T) -> bool) {
    && (forall a :: !less(a, a))
    && (forall a, b :: a == b || less(a, b) || less(b, a))
    && (forall a, b, c :: less(a, b) && less(b, c) ==> less(a, c))
  }

  predicate Less(a: string, b: string)
    decreases b
  {
    b != "" && (a == "" || a[0] < b[0] || (a[0] == b[0] && Less(a[1..], b[1..])))
  }

  /** sortNodes: by type, then by id. */
  predicate NodeLess(a: NodeRef, b: NodeRef) {
    if a.typ != b.typ then Less(a.typ, b.typ) else Less(a.id, b.id)
  }

  predicate Ascending<T(==)>(less: (T, T) -> bool, xs: seq<T>) {
    forall i, j | 0 <= i < j < |xs| :: less(xs[i], xs[j])
  }

  predicate Distinct(xs: seq<string>) {
    forall i, j :: 0 <= i < j < |xs| ==> xs[i] != xs[j]
  }

  function Elements<T>(xs: seq<T>): set<T> {
    set x | x in xs
  }

  function Insert<T(==)>(less: (T, T) -> bool, x: T, xs: seq<T>): seq<T> {
    if xs == [] || less(x, xs[0]) then [x] + xs
    else [xs[0]] + Insert(less, x, xs[1..])
  }

  lemma {:induction false} LessTrichotomy(a: string, b: string)
    ensures !Less(a, a)
    ensures a == b || Less(a, b) || Less(b, a)
    decreases |a|
  {
    if a != "" {
      LessTrichotomy(a[1..], if b == "" then "" else b[1..]);
      if b != "" && a[0] == b[0] && a[1..] == b[1..] {
        assert a == [a[0]] + a[1..] == b;
      }
    }
  }

  lemma SameFirst(a: string, b: string, i: nat)
    requires 0 < i <= |a| && i <= |b| && a[..i] == b[..i]
    ensures a[0] == b[0]
  {
    assert a[..i][0] == b[..i][0];
  }

  /** The order is lexicographic: at the first place that differs the lesser has the lesser character, or has ended. */
  lemma {:induction false} LessIsLexicographic(a: string, b: string)
    ensures Less(a, b) <==> exists i :: 0 <= i <= |a| && i < |b| && a[..i] == b[..i] && (i == |a| || a[i] < b[i])
    decreases |a|
  {
    if a != "" && b != "" && a[0] == b[0] {
      LessIsLexicographic(a[1..], b[1..]);
      if Less(a, b) {
        var i :| 0 <= i <= |a[1..]| && i < |b[1..]| && a[1..][..i] == b[1..][..i] && (i == |a[1..]| || a[1..][i] < b[1..][i]);
        assert a[..i + 1] == [a[0]] + a[1..][..i] && b[..i + 1] == [b[0]] + b[1..][..i];
      }
      if i :| 0 <= i <= |a| && i < |b| && a[..i] == b[..i] && (i == |a| || a[i] < b[i]) {
        assert i > 0;
        assert a[1..][..i - 1] == a[..i][1..] && b[1..][..i - 1] == b[..i][1..];
      }
    } else if a != "" && b != "" {
      if i :| 0 <= i <= |a| && i < |b| && a[..i] == b[..i] && (i == |a| || a[i] < b[i]) {
        if i > 0 {
          SameFirst(a, b, i);
        }
      }
      assert a[..0] == b[..0];
    } else if b != "" {
      assert a[..0] == b[..0];
    }
  }

  lemma {:induction false} LessTransitive(a: string, b: string, c: string)
    requires Less(a, b) && Less(b, c)
    ensures Less(a, c)
    decreases |a|
  {
    if a != "" && a[0] == b[0] == c[0] {
      LessTransitive(a[1..], b[1..], c[1..]);
    }
  }

  lemma LessIsTotal()
    ensures TotalOrder(Less)
  {
    forall a: string, b: string ensures !Less(a, a) && (a == b || Less(a, b) || Less(b, a)) {
      LessTrichotomy(a, b);
    }
    forall a: string, b: string, c: string | Less(a, b) && Less(b, c) ensures Less(a, c) {
      LessTransitive(a, b, c);
    }
  }

  lemma NodeLessIsTotal()
    ensures TotalOrder(NodeLess)
  {
    LessIsTotal();
  }

  lemma {:induction false} InsertAscends<T(!new)>(less: (T, T) -> bool, x: T, xs: seq<T>)
    requires TotalOrder(less) && Ascending(less, xs) && x !in xs
    ensures Ascending(less, Insert(less, x, xs))
    ensures Elements(Insert(less, x, xs)) == Elements(xs) + {x}
    decreases xs
  {
    if xs != [] && !less(x, xs[0]) {
      InsertAscends(less, x, xs[1..]);
      var rest := Insert(less, x, xs[1..]);
      forall y | y in rest ensures less(xs[0], y) {
        assert y in Elements(rest);
      }
      assert Elements(xs) == {xs[0]} + Elements(xs[1..]);
      assert Elements([xs[0]] + rest) == {xs[0]} + Elements(rest);
    } else {
      assert Elements([x] + xs) == {x} + Elements(xs);
      if xs != [] {
        forall y | y in xs ensures less(x, y) {
        }
      }
    }
  }

  /** The ascending list of a set: what sorting any enumeration of it gives. */
  ghost function Listing<T(!new)>(less: (T, T) -> bool, s: set<T>): (xs: seq<T>)
    requires TotalOrder(less)
    ensures Ascending(less, xs) && Elements(xs) == s
  {
    if s == {} then []
    else
      var x :| x in s;
      var rest := Listing(less, s - {x});
      assert x !in rest by {
        assert x !in Elements(rest);
      }
      InsertAscends(less, x, rest);
      Insert(less, x, rest)
  }

  lemma HeadIsElement<T>(xs: seq<T>)
    requires xs != []
    ensures xs[0] in Elements(xs)
  {
  }

  /** A set has one ascending list only, so no enumeration order shows through. */
  lemma {:induction false} AscendingUnique<T(!new)>(less: (T, T) -> bool, xs: seq<T>, ys: seq<T>)
    requires TotalOrder(less) && Ascending(less, xs) && Ascending(less, ys)
    requires Elements(xs) == Elements(ys)
    ensures xs == ys
    decreases xs
  {
    if xs == [] {
      if ys != [] {
        HeadIsElement(ys);
      }
    } else {
      assert xs[0] in Elements(ys);
      assert ys != [];
      assert ys[0] in Elements(xs);
      assert xs[0] == ys[0];
      assert Elements(xs[1..]) == Elements(xs) - {xs[0]};
      assert Elements(ys[1..]) == Elements(ys) - {ys[0]};
      AscendingUnique(less, xs[1..], ys[1..]);
      assert xs == [xs[0]] + xs[1..];
      assert ys == [ys[0]] + ys[1..];
    }
  }

  method SortSet<T(==, !new)>(less: (T, T) -> bool, s: set<T>) returns (xs: seq<T>)
    requires TotalOrder(less)
    ensures xs == Listing(less, s)
  {
    xs := [];
    var rest := s;
    while rest != {}
      invariant rest <= s && Elements(xs) == s - rest
      invariant Ascending(less, xs)
    {
      var x :| x in rest;
      assert x !in Elements(xs);
      InsertAscends(less, x, xs);
      xs := Insert(less, x, xs);
      rest := rest - {x};
    }
    AscendingUnique(less, xs, Listing(less, s));
  }
}

/** Text helpers: white space, identifiers and Go's string order. */
module Text {
  /** The code points Go's strings.TrimSpace removes. */
  predicate IsSpace(c: char) {
    || c == ' ' || '\t' <= c <= '\r' || c == '\U{0085}' || c == '\U{00A0}'
    || c == '\U{1680}' || '\U{2000}' <= c <= '\U{200A}'
    || c == '\U{2028}' || c == '\U{2029}' || c == '\U{202F}' || c == '\U{205F}' || c == '\U{3000}'
  }

  /** TrimSpace(s) == "". */
  predicate Blank(s: string) {
    forall i :: 0 <= i < |s| ==> IsSpace(s[i])
  }

  predicate IdentChar(c: char, first: bool) {
    'a' <= c <= 'z' || c == '_' || ('0' <= c <= '9' && !first)
  }

  /** validIdent(s) == nil. */
  predicate ValidIdent(s: string) {
    s != "" && forall i :: 0 <= i < |s| ==> IdentChar(s[i], i == 0)
  }

  /** The white space characters of Unicode, one by one. */
  lemma SpacesAre(c: char)
    ensures IsSpace(c) <==> c in ['\t', '\n', '\U{000B}', '\U{000C}', '\r', ' ', '\U{0085}', '\U{00A0}', '\U{1680}',
                                  '\U{2000}', '\U{2001}', '\U{2002}', '\U{2003}', '\U{2004}', '\U{2005}', '\U{2006}', '\U{2007}',
                                  '\U{2008}', '\U{2009}', '\U{200A}', '\U{2028}', '\U{2029}', '\U{202F}', '\U{205F}', '\U{3000}']
  {
  }

  /** Identifiers: lower-case letters, digits and underscores, no digit first. */
  lemma IdentifiersAre(s: string)
    ensures ValidIdent(s) <==>
      && s != "" && s[0] in "abcdefghijklmnopqrstuvwxyz_"
      && forall i :: 1 <= i < |s| ==> s[i] in "abcdefghijklmnopqrstuvwxyz_0123456789"
  {
    forall c: char ensures IdentChar(c, true) <==> c in "abcdefghijklmnopqrstuvwxyz_" {
    }
    forall c: char ensures IdentChar(c, false) <==> c in "abcdefghijklmnopqrstuvwxyz_0123456789" {
    }
  }

  // ---- TrimSpace ----

  function TrimLeft(s: string): string {
    if s != "" && IsSpace(s[0]) then TrimLeft(s[1..]) else s
  }

  function TrimRight(s: string): string {
    if s != "" && IsSpace(s[|s| - 1]) then TrimRight(s[..|s| - 1]) else s
  }

  function Trim(s: string): string {
    TrimRight(TrimLeft(s))
  }

  /** Not empty, and nothing for TrimSpace to remove. */
  predicate Trimmed(s: string) {
    s != "" && !IsSpace(s[0]) && !IsSpace(s[|s| - 1])
  }

  lemma {:induction false} TrimLeftSuffix(s: string) returns (a: nat)
    ensures a <= |s| && TrimLeft(s) == s[a..]
    ensures forall i :: 0 <= i < a ==> IsSpace(s[i])
    ensures a < |s| ==> !IsSpace(s[a])
    decreases |s|
  {
    if s != "" && IsSpace(s[0]) {
      var b := TrimLeftSuffix(s[1..]);
      a := b + 1;
      assert forall i :: 1 <= i < a ==> s[i] == s[1..][i - 1];
    } else {
      a := 0;
    }
  }

  lemma {:induction false} TrimRightPrefix(s: string) returns (b: nat)
    ensures b <= |s| && TrimRight(s) == s[..b]
    ensures forall i :: b <= i < |s| ==> IsSpace(s[i])
    ensures b > 0 ==> !IsSpace(s[b - 1])
    decreases |s|
  {
    if s != "" && IsSpace(s[|s| - 1]) {
      var n := |s| - 1;
      b := TrimRightPrefix(s[..n]);
      assert s[..n][..b] == s[..b];
      assert forall i :: b <= i < n ==> s[i] == s[..n][i];
    } else {
      b := |s|;
    }
  }

  /** Trim cuts white space off both ends and nothing else. */
  lemma TrimIsSlice(s: string) returns (a: nat, b: nat)
    ensures a <= b <= |s| && Trim(s) == s[a..b]
    ensures forall i :: 0 <= i < |s| && (i < a || b <= i) ==> IsSpace(s[i])
    ensures a < b ==> Trimmed(s[a..b])
  {
    a := TrimLeftSuffix(s);
    var rest := s[a..];
    var k := TrimRightPrefix(rest);
    b := a + k;
    assert rest[..k] == s[a..b];
    assert forall i :: b <= i < |s| ==> s[i] == rest[i - a];
    if a < b {
      assert rest[k - 1] == s[a..b][k - 1];
      assert s[a..b][0] == s[a];
    }
  }

  lemma TrimOfTrimmed(s: string)
    requires Trimmed(s)
    ensures Trim(s) == s
  {
  }

  lemma {:induction false} TrimLeftPads(s: string, t: string)
    requires Blank(s)
    ensures TrimLeft(s + t) == TrimLeft(t)
    decreases |s|
  {
    if s == "" {
      assert s + t == t;
    } else {
      assert (s + t)[1..] == s[1..] + t;
      assert (s + t)[0] == s[0];
      TrimLeftPads(s[1..], t);
    }
  }

  lemma {:induction false} TrimRightPads(s: string, t: string)
    requires Blank(t)
    ensures TrimRight(s + t) == TrimRight(s)
    decreases |t|
  {
    if t == "" {
      assert s + t == s;
    } else {
      var n := |t| - 1;
      assert (s + t)[..|s + t| - 1] == s + t[..n];
      assert (s + t)[|s + t| - 1] == t[n];
      TrimRightPads(s, t[..n]);
    }
  }

  /** White space around trimmed text is all Trim removes. */
  lemma TrimPadded(left: string, s: string, right: string)
    requires Blank(left) && Blank(right) && Trimmed(s)
    ensures Trim(left + s + right) == s
  {
    assert left + s + right == left + (s + right);
    TrimLeftPads(left, s + right);
    assert (s + right)[0] == s[0];
    assert TrimLeft(s + right) == s + right;
    TrimRightPads(s, right);
  }

  /** White space after the text is as good as none. */
  lemma TrimTrailing(s: string, t: string)
    requires Blank(t)
    ensures Trim(s + t) == Trim(s)
  {
    var a := TrimLeftSuffix(s);
    if a == |s| {
      TrimLeftPads(s, t);
      TrimLeftPads(t, "");
      assert t + "" == t;
      assert s + "" == s;
      TrimLeftPads(s, "");
    } else {
      TrimLeftPads(s[..a], s[a..] + t);
      assert s[..a] + (s[a..] + t) == s + t;
      assert (s[a..] + t)[0] == s[a];
      TrimRightPads(s[a..], t);
    }
  }

  // ---- Splitting text back ----

  lemma FirstSplit(a: string, b: string, a': string, b': string, c: char)
    requires c !in a && c !in a'
    requires a + ([c] + b) == a' + ([c] + b')
    ensures a == a' && b == b'
  {
    var s := a + ([c] + b);
    assert s[|a|] == c && s[|a'|] == c;
    assert s[..|a|] == a && s[..|a'|] == a';
    assert forall i :: 0 <= i < |a| ==> s[i] == a[i] && a[i] in a;
    assert forall i :: 0 <= i < |a'| ==> s[i] == a'[i] && a'[i] in a';
    assert s[|a| + 1..] == b && s[|a'| + 1..] == b';
  }

  lemma LastSplit(a: string, b: string, a': string, b': string, c: char)
    requires c !in b && c !in b'
    requires a + ([c] + b) == a' + ([c] + b')
    ensures a == a' && b == b'
  {
    var s := a + ([c] + b);
    assert s[|a|] == c && s[|a'|] == c;
    assert s[|a| + 1..] == b && s[|a'| + 1..] == b';
    assert forall i :: |a| < i < |s| ==> s[i] == b[i - |a| - 1] && b[i - |a| - 1] in b;
    assert forall i :: |a'| < i < |s| ==> s[i] == b'[i - |a'| - 1] && b'[i - |a'| - 1] in b';
    assert s[..|a|] == a && s[..|a'|] == a';
  }
}

/**
 * Text keys made of a name, an id and another name, with separators between them:
 * when they can be told apart (core/reach/graph.go:150-152; core/reach/walk.go:277).
 */
module Keys {
  import Text

  function Composed(left: string, c: char, id: string, d: char, right: string): string {
    left + [c] + id + [d] + right
  }

  /** The longer name is the shorter one followed by the separator and more text. */
  predicate Lengthens(longer: string, name: string, c: char) {
    |longer| > |name| && longer[..|name|] == name && longer[|name|] == c
  }

  /** The longer name is the shorter one preceded by text and the separator. */
  predicate Precedes(longer: string, name: string, d: char) {
    |longer| > |name| && longer[|longer| - |name|..] == name && longer[|longer| - |name| - 1] == d
  }

  /** No name on the left extends another, and none on the right precedes another. */
  ghost predicate Clear(lefts: iset<string>, c: char, rights: iset<string>, d: char) {
    && (forall t, u :: t in lefts && u in lefts ==> !Lengthens(u, t, c))
    && (forall r, s :: r in rights && s in rights ==> !Precedes(s, r, d))
  }

  /** Over ids that are not blank, keys are equal only when their parts are. */
  ghost predicate ToldApart(lefts: iset<string>, c: char, rights: iset<string>, d: char) {
    forall t, id, r, t', id', r' ::
      t in lefts && t' in lefts && r in rights && r' in rights && !Text.Blank(id) && !Text.Blank(id')
      && Composed(t, c, id, d, r) == Composed(t', c, id', d, r')
      ==> t == t' && id == id' && r == r'
  }

  lemma ShorterIsExtended(t: string, t': string, c: char, rest: string, rest': string)
    requires t + [c] + rest == t' + [c] + rest' && |t| < |t'|
    ensures Lengthens(t', t, c)
  {
    var s := t + [c] + rest;
    assert s[..|t'|] == t' && s[|t|] == c && s[..|t|] == t;
    assert t'[..|t|] == s[..|t|];
  }

  lemma LeftsAgree(t: string, t': string, c: char, rest: string, rest': string)
    requires !Lengthens(t', t, c) && !Lengthens(t, t', c)
    requires t + [c] + rest == t' + [c] + rest'
    ensures t == t' && rest == rest'
  {
    if |t| < |t'| {
      ShorterIsExtended(t, t', c, rest, rest');
    } else if |t'| < |t| {
      ShorterIsExtended(t', t, c, rest', rest);
    } else {
      var s := t + [c] + rest;
      assert s[..|t|] == t && s[..|t|] == t' && s[|t| + 1..] == rest && s[|t| + 1..] == rest';
    }
  }

  lemma ShorterIsPreceded(r: string, r': string, d: char, rest: string, rest': string)
    requires rest + [d] + r == rest' + [d] + r' && |r| < |r'|
    ensures Precedes(r', r, d)
  {
    var s := rest + [d] + r;
    var k := |r'| - |r|;
    assert s[|s| - |r'|..] == r' && s[|s| - |r| - 1] == d && s[|s| - |r|..] == r;
    assert r'[k..] == s[|s| - |r|..] && r'[k - 1] == s[|s| - |r| - 1];
  }

  lemma RightsAgree(r: string, r': string, d: char, rest: string, rest': string)
    requires !Precedes(r', r, d) && !Precedes(r, r', d)
    requires rest + [d] + r == rest' + [d] + r'
    ensures r == r' && rest == rest'
  {
    if |r| < |r'| {
      ShorterIsPreceded(r, r', d, rest, rest');
    } else if |r'| < |r| {
      ShorterIsPreceded(r', r, d, rest', rest);
    } else {
      var s := rest + [d] + r;
      assert s[|rest| + 1..] == r && s[|rest| + 1..] == r' && s[..|rest|] == rest && s[..|rest|] == rest';
    }
  }

  /** Over clear names the parts of a key can be read back, whatever the ids hold. */
  lemma ClearTellsApart(lefts: iset<string>, c: char, rights: iset<string>, d: char, t: string, id: string, r: string, t': string, id': string, r': string)
    requires Clear(lefts, c, rights, d) && t in lefts && t' in lefts && r in rights && r' in rights
    requires Composed(t, c, id, d, r) == Composed(t', c, id', d, r')
    ensures t == t' && id == id' && r == r'
  {
    assert Composed(t, c, id, d, r) == t + [c] + (id + [d] + r);
    assert Composed(t', c, id', d, r') == t' + [c] + (id' + [d] + r');
    LeftsAgree(t, t', c, id + [d] + r, id' + [d] + r');
    RightsAgree(r, r', d, id, id');
  }

  /** Two ids under which a name and one that extends it make the same key. */
  lemma ExtendedCollides(longer: string, name: string, c: char, d: char, right: string) returns (id: string, id': string)
    requires Lengthens(longer, name, c)
    ensures !Text.Blank(id) && !Text.Blank(id')
    ensures Composed(name, c, id, d, right) == Composed(longer, c, id', d, right)
  {
    var more := longer[|name| + 1..];
    id, id' := more + [c] + "x", "x";
    assert longer == name + [c] + more;
    assert id[|more| + 1] == 'x' && id'[0] == 'x';
    assert name + [c] + (more + [c] + "x") == (name + [c] + more) + [c] + "x";
  }

  lemma PrecededCollides(longer: string, name: string, c: char, d: char, left: string) returns (id: string, id': string)
    requires Precedes(longer, name, d)
    ensures !Text.Blank(id) && !Text.Blank(id')
    ensures Composed(left, c, id, d, name) == Composed(left, c, id', d, longer)
  {
    var more := longer[..|longer| - |name| - 1];
    id, id' := "x" + [d] + more, "x";
    assert longer == more + [d] + name;
    assert id[0] == 'x' && id'[0] == 'x';
    assert left + [c] + ("x" + [d] + more) + [d] + name == left + [c] + "x" + [d] + (more + [d] + name);
  }

  /** The names tell all keys apart exactly when they are clear. */
  lemma ToldApartIff(lefts: iset<string>, c: char, rights: iset<string>, d: char)
    requires lefts != iset{} && rights != iset{}
    ensures ToldApart(lefts, c, rights, d) <==> Clear(lefts, c, rights, d)
  {
    if Clear(lefts, c, rights, d) {
      forall t, id, r, t', id', r' |
        t in lefts && t' in lefts && r in rights && r' in rights && Composed(t, c, id, d, r) == Composed(t', c, id', d, r')
        ensures t == t' && id == id' && r == r'
      {
        ClearTellsApart(lefts, c, rights, d, t, id, r, t', id', r');
      }
    }
    if ToldApart(lefts, c, rights, d) {
      forall t, u | t in lefts && u in lefts ensures !Lengthens(u, t, c) {
        if Lengthens(u, t, c) {
          var r :| r in rights;
          var id, id' := ExtendedCollides(u, t, c, d, r);
        }
      }
      forall r, s | r in rights && s in rights ensures !Precedes(s, r, d) {
        if Precedes(s, r, d) {
          var t :| t in lefts;
          var id, id' := PrecededCollides(s, r, c, d, t);
        }
      }
    }
  }

  lemma SeparatorsInside(longer: string, name: string, c: char)
    ensures Lengthens(longer, name, c) ==> c in longer
    ensures Precedes(longer, name, c) ==> c in longer
  {
  }

  /** Names without the separators are clear. */
  lemma PlainIsClear(lefts: iset<string>, c: char, rights: iset<string>, d: char)
    requires forall t :: t in lefts ==> c !in t
    requires forall r :: r in rights ==> d !in r
    ensures Clear(lefts, c, rights, d)
  {
    forall t, u | t in lefts && u in lefts ensures !Lengthens(u, t, c) {
      SeparatorsInside(u, t, c);
    }
    forall r, s | r in rights && s in rights ensures !Precedes(s, r, d) {
      SeparatorsInside(s, r, d);
    }
  }
}
