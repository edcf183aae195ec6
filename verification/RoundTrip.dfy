/**
 * Printing and parsing rule bodies undo each other, and a parsed tree means the
 * strict left-to-right fold of its terms (core/reach/parse.go:242-343, 360-407;
 * core/reach/schema.go:178-194).
 */
module RoundTrip {
  import opened Wrappers
  import opened Schemas
  import opened RuleText
  import opened Spines

  /** Whatever the parser returns is a raw spine. */
  lemma ParsedIsSpine(body: string)
    requires Parse(body).Ok?
    ensures Spine(Parse(body).value) && Raw(Parse(body).value)
  {
    SplitTermsClean(body, "");
    var tokens := Split(body, "").value;
    ParsedTermIsLeaf(tokens.terms[0]);
    AssembledIsSpine(ParseTerm(tokens.terms[0]).value, tokens.ops, tokens.terms[1..]);
  }

  /** Printing a parsed body and parsing it again gives the same tree. */
  lemma PrintThenParse(body: string)
    requires Parse(body).Ok?
    ensures Parse(Print(Parse(body).value)) == Parse(body)
  {
    ParsedIsSpine(body);
    ParsePrinted(Parse(body).value);
    UnresolveRaw(Parse(body).value);
  }

  // ---- The round trip survives resolution ----

  lemma PeelCombine(cur: Expr, op: char, next: Expr)
    requires Spine(cur) && Leaf(next) && IsOp(op)
    ensures Spine(Combine(cur, op, next)) && !Single(Combine(cur, op, next))
    ensures Peel(Combine(cur, op, next)) == Last(cur, op, next)
  {
    if cur.Union? && op == '+' {
      assert (cur.terms + [next])[..|cur.terms|] == cur.terms;
    } else if cur.Intersect? && op == '&' {
      assert (cur.terms + [next])[..|cur.terms|] == cur.terms;
    }
  }

  lemma {:induction false} ResolveAllSnoc(t: TypeDef, terms: seq<Expr>, last: Expr)
    ensures ResolveAll(t, terms + [last]).Ok? <==> ResolveAll(t, terms).Ok? && Resolve(t, last).Ok?
    ensures ResolveAll(t, terms + [last]).Ok? ==>
      ResolveAll(t, terms + [last]).value == ResolveAll(t, terms).value + [Resolve(t, last).value]
  {
    var all := terms + [last];
    if terms == [] {
      assert all == [last] && all[1..] == [];
    } else {
      assert all[1..] == terms[1..] + [last];
      ResolveAllSnoc(t, terms[1..], last);
    }
  }

  /** Resolution goes through the last operator of a spine. */
  lemma ResolvePeel(t: TypeDef, e: Expr)
    requires Spine(e) && !Single(e) && Resolve(t, e).Ok?
    ensures var l := Peel(e);
            && Resolve(t, l.before).Ok? && Resolve(t, l.term).Ok?
            && Resolve(t, e).value == Combine(Resolve(t, l.before).value, l.op, Resolve(t, l.term).value)
  {
    var l := Peel(e);
    if e.Union? || e.Intersect? {
      var n := |e.terms| - 1;
      assert e.terms == e.terms[..n] + [e.terms[n]];
      ResolveAllSnoc(t, e.terms[..n], e.terms[n]);
      if n == 1 {
        assert e.terms[..1] == [e.terms[0]];
        assert ResolveAll(t, [e.terms[0]]).Ok? ==> ResolveAll(t, [e.terms[0]]).value == [Resolve(t, e.terms[0]).value] + [];
      }
    }
  }

  /** A resolved spine is a spine with the same text, and unresolves to what it came from. */
  lemma {:induction false} ResolvedSpine(t: TypeDef, e: Expr)
    requires Spine(e) && Raw(e) && Resolve(t, e).Ok?
    ensures var r := Resolve(t, e).value;
            Spine(r) && Print(r) == Print(e) && Unresolve(r) == e && (Single(r) <==> Single(e))
    decreases Operators(e)
  {
    if !Single(e) {
      var l := Peel(e);
      ResolvePeel(t, e);
      ResolvedSpine(t, l.before);
      var b, x := Resolve(t, l.before).value, Resolve(t, l.term).value;
      assert Leaf(x) && Print(x) == Print(l.term) && Unresolved(x) == l.term;
      PeelCombine(b, l.op, x);
      PrintPeel(e);
      PrintPeel(Combine(b, l.op, x));
    }
  }

  /**
   * A body parsed and resolved on a type prints to text that parses and resolves
   * on that type to the same tree.
   */
  lemma ResolvedPrintThenParse(t: TypeDef, body: string)
    requires Parse(body).Ok? && Resolve(t, Parse(body).value).Ok?
    ensures var r := Resolve(t, Parse(body).value).value;
            Parse(Print(r)) == Parse(body) && Resolve(t, Parse(Print(r)).value) == Ok(r)
  {
    ParsedIsSpine(body);
    ResolvedSpine(t, Parse(body).value);
    ParsePrinted(Resolve(t, Parse(body).value).value);
  }

  // ---- The meaning of a parsed body ----

  /** The truth of an expression when each single term is given a truth value. */
  ghost predicate Truth(e: Expr, v: Expr -> bool) {
    match e
    case Union(terms) => exists t :: t in terms && Truth(t, v)
    case Intersect(terms) => forall t :: t in terms ==> Truth(t, v)
    case Exclude(base, subtract) => Truth(base, v) && !Truth(subtract, v)
    case _ => v(e)
  }

  predicate Apply(op: char, a: bool, b: bool) {
    if op == '+' then a || b else if op == '&' then a && b else a && !b
  }

  /** The terms folded strictly from left to right. */
  predicate Fold(acc: bool, ops: seq<char>, terms: seq<Expr>, v: Expr -> bool)
    requires |ops| == |terms|
    decreases |ops|
  {
    if ops == [] then acc else Fold(Apply(ops[0], acc, v(terms[0])), ops[1..], terms[1..], v)
  }

  function ParseTerms(terms: seq<string>): (r: seq<Expr>)
    requires forall t :: t in terms ==> ParseTerm(t).Ok?
    ensures |r| == |terms|
  {
    if terms == [] then [] else [ParseTerm(terms[0]).value] + ParseTerms(terms[1..])
  }

  lemma CombineTruth(cur: Expr, op: char, next: Expr, v: Expr -> bool)
    ensures Truth(Combine(cur, op, next), v) <==> Apply(op, Truth(cur, v), Truth(next, v))
  {
    var both := [cur, next];
    assert both[0] == cur && both[1] == next;
    if cur.Union? || cur.Intersect? {
      var all := cur.terms + [next];
      assert forall t :: t in all <==> t in cur.terms || t == next;
    }
  }

  lemma {:induction false} AssembledTruth(cur: Expr, ops: seq<char>, terms: seq<string>, v: Expr -> bool)
    requires |ops| == |terms| && Assemble(cur, ops, terms).Ok?
    ensures forall t :: t in terms ==> ParseTerm(t).Ok?
    ensures Truth(Assemble(cur, ops, terms).value, v) <==> Fold(Truth(cur, v), ops, ParseTerms(terms), v)
    decreases |ops|
  {
    if ops != [] {
      var next := ParseTerm(terms[0]).value;
      assert Single(next);
      CombineTruth(cur, ops[0], next, v);
      AssembledTruth(Combine(cur, ops[0], next), ops[1..], terms[1..], v);
      assert forall t :: t in terms <==> t == terms[0] || t in terms[1..];
      assert ParseTerms(terms)[0] == next && ParseTerms(terms)[1..] == ParseTerms(terms[1..]);
    }
  }

  /** A parsed body means its terms folded strictly in reading order: a + b & c is (a + b) & c. */
  lemma ParsedMeansFold(body: string, v: Expr -> bool)
    requires Parse(body).Ok?
    ensures var tokens := Split(body, "").value;
            && (forall t :: t in tokens.terms ==> ParseTerm(t).Ok?)
            && (Truth(Parse(body).value, v) <==> Fold(v(ParseTerms(tokens.terms)[0]), tokens.ops, ParseTerms(tokens.terms)[1..], v))
  {
    var tokens := Split(body, "").value;
    var first := ParseTerm(tokens.terms[0]).value;
    assert Single(first);
    AssembledTruth(first, tokens.ops, tokens.terms[1..], v);
    assert forall t :: t in tokens.terms <==> t == tokens.terms[0] || t in tokens.terms[1..];
    assert ParseTerms(tokens.terms)[0] == first && ParseTerms(tokens.terms)[1..] == ParseTerms(tokens.terms[1..]);
  }
}
