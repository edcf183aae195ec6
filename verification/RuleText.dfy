/**
 * Rule bodies as text: the lexer, the parser and the printer of the rule grammar
 * (core/reach/parse.go:242-343, 360-407; core/reach/schema.go:178-194).
 */
module RuleText {
  import opened Wrappers
  import opened Schemas
  import opened Text

  datatype ParseError = EmptyTerm | MalformedArrow(term: string) | ChainedArrow(term: string) | UnknownIdent(name: string)

  /** The terms of a body and the operators between them. */
  datatype Tokens = Tokens(terms: seq<string>, ops: seq<char>)

  predicate IsOp(c: char) {
    c == '+' || c == '&' || c == '-'
  }

  predicate StartsArrow(s: string) {
    |s| >= 2 && s[0] == '-' && s[1] == '>'
  }

  // ---- splitTerms ----

  /** Ends the current term. */
  function Flush(cur: string): Result<string, ParseError> {
    if Trim(cur) == "" then Err(EmptyTerm) else Ok(Trim(cur))
  }

  /** The tokens of the rest of a body, with the text gathered since the last operator. */
  function Split(body: string, cur: string): (r: Result<Tokens, ParseError>)
    ensures r.Ok? ==> |r.value.terms| == |r.value.ops| + 1
    decreases |body|
  {
    if body == "" then
      match Flush(cur)
      case Err(e) => Err(e)
      case Ok(t) => Ok(Tokens([t], []))
    else if StartsArrow(body) then Split(body[2..], cur + "->")
    else if IsOp(body[0]) then
      match Flush(cur)
      case Err(e) => Err(e)
      case Ok(t) =>
        (match Split(body[1..], "")
         case Err(e) => Err(e)
         case Ok(rest) => Ok(Tokens([t] + rest.terms, [body[0]] + rest.ops)))
    else Split(body[1..], cur + [body[0]])
  }

  method SplitTerms(body: string) returns (r: Result<Tokens, ParseError>)
    ensures r == Split(body, "")
  {
    var terms: seq<string> := [];
    var ops: seq<char> := [];
    var cur := "";
    var i := 0;
    assert body[0..] == body;
    assert Prepend([], [], Split(body, "")) == Split(body, "") by {
      if Split(body, "").Ok? {
        assert [] + Split(body, "").value.terms == Split(body, "").value.terms;
        assert [] + Split(body, "").value.ops == Split(body, "").value.ops;
      }
    }
    while i < |body|
      invariant 0 <= i <= |body|
      invariant Split(body, "") == Prepend(terms, ops, Split(body[i..], cur))
    {
      var c := body[i];
      ghost var rest := body[i..];
      assert rest[0] == c && rest[1..] == body[i + 1..];
      if c == '+' || c == '&' {
        var t := Flush(cur);
        if t.Err? { return Err(t.error); }
        terms, ops, cur := terms + [t.value], ops + [c], "";
        PrependMore(terms, ops, t.value, c, Split(body[i + 1..], ""));
      } else if c == '-' && i + 1 < |body| && body[i + 1] == '>' {
        assert rest[2..] == body[i + 2..];
        cur := cur + "->";
        i := i + 1;
      } else if c == '-' {
        var t := Flush(cur);
        if t.Err? { return Err(t.error); }
        terms, ops, cur := terms + [t.value], ops + ['-'], "";
        PrependMore(terms, ops, t.value, '-', Split(body[i + 1..], ""));
      } else {
        cur := cur + [c];
      }
      i := i + 1;
    }
    assert body[i..] == "";
    var t := Flush(cur);
    if t.Err? { return Err(t.error); }
    r := Ok(Tokens(terms + [t.value], ops));
    assert ops + [] == ops;
  }

  /** Tokens already cut off, in front of those still to come. */
  ghost function Prepend(terms: seq<string>, ops: seq<char>, rest: Result<Tokens, ParseError>): Result<Tokens, ParseError> {
    if rest.Err? then rest else Ok(Tokens(terms + rest.value.terms, ops + rest.value.ops))
  }

  lemma PrependMore(terms: seq<string>, ops: seq<char>, t: string, op: char, rest: Result<Tokens, ParseError>)
    requires terms != [] && ops != [] && terms[|terms| - 1] == t && ops[|ops| - 1] == op
    ensures Prepend(terms, ops, rest)
         == Prepend(terms[..|terms| - 1], ops[..|ops| - 1], Prepend([t], [op], rest))
  {
    if rest.Ok? {
      assert terms == terms[..|terms| - 1] + [t] && ops == ops[..|ops| - 1] + [op];
      assert terms + rest.value.terms == terms[..|terms| - 1] + ([t] + rest.value.terms);
      assert ops + rest.value.ops == ops[..|ops| - 1] + ([op] + rest.value.ops);
    }
  }

  // ---- parseTerm and parseExpr ----

  /** The position of the first arrow, or the length. */
  function ArrowAt(t: string): (i: nat)
    ensures i <= |t|
    ensures i < |t| ==> i + 1 < |t| && t[i] == '-' && t[i + 1] == '>'
    ensures forall j :: 0 <= j < i && j + 1 < |t| ==> !(t[j] == '-' && t[j + 1] == '>')
  {
    if t == "" then 0
    else if StartsArrow(t) then 0
    else
      var k := ArrowAt(t[1..]);
      assert forall j :: 1 <= j < k + 1 && j + 1 < |t| ==> t[j] == t[1..][j - 1] && t[j + 1] == t[1..][j];
      k + 1
  }

  function ParseTerm(t: string): Result<Expr, ParseError> {
    var i := ArrowAt(t);
    if i == |t| then Ok(IdentTerm(t))
    else
      var rel, action := Trim(t[..i]), Trim(t[i + 2..]);
      if rel == "" || action == "" then Err(MalformedArrow(t))
      else if ArrowAt(action) < |action| then Err(ChainedArrow(t))
      else Ok(ArrowTerm(rel, action))
  }

  /** One more operator and term on the right: a flat list grows, anything else nests. */
  function Combine(cur: Expr, op: char, next: Expr): Expr {
    if op == '+' then
      if cur.Union? then Union(cur.terms + [next]) else Union([cur, next])
    else if op == '&' then
      if cur.Intersect? then Intersect(cur.terms + [next]) else Intersect([cur, next])
    else Exclude(cur, next)
  }

  /** Parses the remaining terms onto the expression so far. */
  function Assemble(cur: Expr, ops: seq<char>, terms: seq<string>): Result<Expr, ParseError>
    requires |ops| == |terms|
    decreases |ops|
  {
    if ops == [] then Ok(cur)
    else match ParseTerm(terms[0])
      case Err(e) => Err(e)
      case Ok(next) => Assemble(Combine(cur, ops[0], next), ops[1..], terms[1..])
  }

  function Parse(body: string): Result<Expr, ParseError> {
    match Split(body, "")
    case Err(e) => Err(e)
    case Ok(tokens) =>
      (match ParseTerm(tokens.terms[0])
       case Err(e) => Err(e)
       case Ok(first) => Assemble(first, tokens.ops, tokens.terms[1..]))
  }

  method ParseExpr(body: string) returns (r: Result<Expr, ParseError>)
    ensures r == Parse(body)
  {
    var tokens := SplitTerms(body);
    if tokens.Err? { return Err(tokens.error); }
    var terms, ops := tokens.value.terms, tokens.value.ops;
    var first := ParseTerm(terms[0]);
    if first.Err? { return Err(first.error); }
    var cur := first.value;
    for i := 0 to |ops|
      invariant Assemble(cur, ops[i..], terms[1..][i..]) == Parse(body)
    {
      var next := ParseTerm(terms[i + 1]);
      assert terms[1..][i..][0] == terms[i + 1];
      if next.Err? { return Err(next.error); }
      var op := ops[i];
      if op == '+' {
        cur := if cur.Union? then Union(cur.terms + [next.value]) else Union([cur, next.value]);
      } else if op == '&' {
        cur := if cur.Intersect? then Intersect(cur.terms + [next.value]) else Intersect([cur, next.value]);
      } else {
        cur := Exclude(cur, next.value);
      }
      assert ops[i..][1..] == ops[i + 1..];
      assert terms[1..][i..][1..] == terms[1..][i + 1..];
    }
    r := Ok(cur);
  }

  // ---- String ----

  function Print(expr: Expr): string {
    match expr
    case RelationTerm(rel) => rel
    case RuleTerm(a) => a
    case IdentTerm(name) => name
    case ArrowTerm(rel, target) => rel + "->" + target
    case Union(terms) => JoinTerms(terms, " + ")
    case Intersect(terms) => JoinTerms(terms, " & ")
    case Exclude(base, subtract) => Print(base) + " - " + Print(subtract)
  }

  function JoinTerms(terms: seq<Expr>, sep: string): string {
    if terms == [] then ""
    else if |terms| == 1 then Print(terms[0])
    else Print(terms[0]) + sep + JoinTerms(terms[1..], sep)
  }

  // ---- resolveIdents ----

  function Resolve(t: TypeDef, expr: Expr): Result<Expr, ParseError> {
    match expr
    case IdentTerm(name) =>
      if name in t.relations then Ok(RelationTerm(name))
      else if name in t.rules then Ok(RuleTerm(name))
      else Err(UnknownIdent(name))
    case Union(terms) => (match ResolveAll(t, terms) case Err(e) => Err(e) case Ok(out) => Ok(Union(out)))
    case Intersect(terms) => (match ResolveAll(t, terms) case Err(e) => Err(e) case Ok(out) => Ok(Intersect(out)))
    case Exclude(base, subtract) =>
      (match Resolve(t, base)
       case Err(e) => Err(e)
       case Ok(b) => (match Resolve(t, subtract) case Err(e) => Err(e) case Ok(s) => Ok(Exclude(b, s))))
    case _ => Ok(expr)
  }

  function ResolveAll(t: TypeDef, terms: seq<Expr>): (r: Result<seq<Expr>, ParseError>)
    ensures r.Ok? ==> |r.value| == |terms|
  {
    if terms == [] then Ok([])
    else match Resolve(t, terms[0])
      case Err(e) => Err(e)
      case Ok(first) =>
        (match ResolveAll(t, terms[1..])
         case Err(e) => Err(e)
         case Ok(rest) => Ok([first] + rest))
  }
}

/**
 * The trees the parser produces, how they print, and how their text lexes and
 * parses (core/reach/parse.go:242-343; core/reach/schema.go:178-194).
 */
module Spines {
  import opened Wrappers
  import opened Schemas
  import opened Text
  import opened RuleText

  // ---- The trees the parser produces ----

  /** Trimmed text with no operator character. */
  predicate Plain(s: string) {
    Trimmed(s) && forall i :: 0 <= i < |s| ==> !IsOp(s[i])
  }

  /** A single term, before or after its bare word is resolved. */
  predicate Leaf(e: Expr) {
    match e
    case IdentTerm(name) => Plain(name)
    case RelationTerm(rel) => Plain(rel)
    case RuleTerm(a) => Plain(a)
    case ArrowTerm(rel, target) => Plain(rel) && Plain(target)
    case _ => false
  }

  predicate RawLeaf(e: Expr) {
    Leaf(e) && (e.IdentTerm? || e.ArrowTerm?)
  }

  /** A left spine: single terms on the right, and no list directly inside a list of its own kind. */
  predicate Spine(e: Expr) {
    match e
    case Union(terms) => |terms| >= 2 && Spine(terms[0]) && !terms[0].Union? && forall i :: 1 <= i < |terms| ==> Leaf(terms[i])
    case Intersect(terms) => |terms| >= 2 && Spine(terms[0]) && !terms[0].Intersect? && forall i :: 1 <= i < |terms| ==> Leaf(terms[i])
    case Exclude(base, subtract) => Spine(base) && Leaf(subtract)
    case _ => Leaf(e)
  }

  /** Only bare words and arrows at the leaves: the tree has not been resolved yet. */
  predicate Raw(e: Expr) {
    match e
    case Union(terms) => forall t :: t in terms ==> Raw(t)
    case Intersect(terms) => forall t :: t in terms ==> Raw(t)
    case Exclude(base, subtract) => Raw(base) && Raw(subtract)
    case _ => e.IdentTerm? || e.ArrowTerm?
  }

  /** A spine taken apart at its last operator. */
  datatype Last = Last(before: Expr, op: char, term: Expr)

  predicate Single(e: Expr) {
    !e.Union? && !e.Intersect? && !e.Exclude?
  }

  function Operators(e: Expr): nat {
    match e
    case Union(terms) => if terms == [] then 0 else Operators(terms[0]) + |terms|
    case Intersect(terms) => if terms == [] then 0 else Operators(terms[0]) + |terms|
    case Exclude(base, _) => Operators(base) + 1
    case _ => 0
  }

  function Peel(e: Expr): (l: Last)
    requires Spine(e) && !Single(e)
    ensures Spine(l.before) && Leaf(l.term) && IsOp(l.op)
    ensures Combine(l.before, l.op, l.term) == e
    ensures Operators(l.before) < Operators(e)
    ensures Raw(e) ==> Raw(l.before) && Raw(l.term)
  {
    match e
    case Union(terms) =>
      var n := |terms| - 1;
      assert terms == terms[..n] + [terms[n]];
      if n == 1 then
        assert terms == [terms[0], terms[1]];
        Last(terms[0], '+', terms[1])
      else
        assert terms[..n][0] == terms[0];
        Last(Union(terms[..n]), '+', terms[n])
    case Intersect(terms) =>
      var n := |terms| - 1;
      assert terms == terms[..n] + [terms[n]];
      if n == 1 then
        assert terms == [terms[0], terms[1]];
        Last(terms[0], '&', terms[1])
      else
        assert terms[..n][0] == terms[0];
        Last(Intersect(terms[..n]), '&', terms[n])
    case Exclude(base, subtract) => Last(base, '-', subtract)
  }

  lemma CombineKeepsSpine(cur: Expr, op: char, next: Expr)
    requires Spine(cur) && RawLeaf(next) && Raw(cur) && IsOp(op)
    ensures Spine(Combine(cur, op, next)) && Raw(Combine(cur, op, next))
  {
  }

  // ---- Printing ----

  lemma {:induction false} JoinSnoc(terms: seq<Expr>, last: Expr, sep: string)
    requires terms != []
    ensures JoinTerms(terms + [last], sep) == JoinTerms(terms, sep) + sep + Print(last)
  {
    var all := terms + [last];
    if |terms| == 1 {
      assert all[1..] == [last];
    } else {
      assert all[1..] == terms[1..] + [last];
      JoinSnoc(terms[1..], last, sep);
      assert Print(terms[0]) + sep + (JoinTerms(terms[1..], sep) + sep + Print(last))
          == (Print(terms[0]) + sep + JoinTerms(terms[1..], sep)) + sep + Print(last);
    }
  }

  lemma SpacedOp(left: string, op: char, right: string)
    ensures left + (" " + [op] + " ") + right == (left + " ") + [op] + (" " + right)
  {
  }

  lemma PrintListPeel(terms: seq<Expr>, op: char)
    requires |terms| >= 2
    ensures var n := |terms| - 1;
            JoinTerms(terms, " " + [op] + " ") == (JoinTerms(terms[..n], " " + [op] + " ") + " ") + [op] + (" " + Print(terms[n]))
  {
    var n := |terms| - 1;
    var sep := " " + [op] + " ";
    var left, right := JoinTerms(terms[..n], sep), Print(terms[n]);
    assert terms == terms[..n] + [terms[n]];
    JoinSnoc(terms[..n], terms[n], sep);
    assert JoinTerms(terms, sep) == left + sep + right;
    SpacedOp(left, op, right);
  }

  /** The text of a spine is the text before its last operator, the operator, and the last term. */
  lemma PrintPeel(e: Expr)
    requires Spine(e) && !Single(e)
    ensures var l := Peel(e);
            Print(e) == (Print(l.before) + " ") + [l.op] + (" " + Print(l.term))
  {
    match e
    case Union(terms) =>
      assert " + " == " " + ['+'] + " ";
      PrintListPeel(terms, '+');
    case Intersect(terms) =>
      assert " & " == " " + ['&'] + " ";
      PrintListPeel(terms, '&');
    case Exclude(base, subtract) =>
      assert " - " == " " + ['-'] + " ";
      SpacedOp(Print(base), '-', Print(subtract));
  }

  // ---- Lexing what was printed ----

  /** Text without operators is gathered. */
  lemma {:induction false} SplitSkips(x: string, y: string, cur: string)
    requires forall i :: 0 <= i < |x| ==> !IsOp(x[i])
    ensures Split(x + y, cur) == Split(y, cur + x)
    decreases |x|
  {
    if x == "" {
      assert x + y == y && cur + x == cur;
    } else {
      assert (x + y)[0] == x[0] && (x + y)[1..] == x[1..] + y;
      SplitSkips(x[1..], y, cur + [x[0]]);
      assert cur + [x[0]] + x[1..] == cur + x;
    }
  }

  /** A blank after the body changes nothing. */
  lemma {:induction false} SplitTrailing(x: string, cur: string)
    ensures Split(x + " ", cur) == Split(x, cur)
    decreases |x|
  {
    var y := x + " ";
    if x == "" {
      assert y == " " && y[1..] == "";
      TrimTrailing(cur, " ");
    } else if StartsArrow(x) {
      assert y[2..] == x[2..] + " ";
      SplitTrailing(x[2..], cur + "->");
    } else {
      assert !StartsArrow(y);
      assert y[0] == x[0] && y[1..] == x[1..] + " ";
      SplitTrailing(x[1..], if IsOp(x[0]) then "" else cur + [x[0]]);
    }
  }

  /** Tokens of a body cut at an operator that is no part of an arrow. */
  lemma {:induction false} SplitAtOp(x: string, op: char, y: string, cur: string)
    requires IsOp(op)
    requires x != "" ==> x[|x| - 1] != '-'
    requires y != "" ==> y[0] != '>'
    requires Split(x, cur).Ok? && Split(y, "").Ok?
    ensures Split(x + [op] + y, cur)
         == Ok(Tokens(Split(x, cur).value.terms + Split(y, "").value.terms, Split(x, cur).value.ops + [op] + Split(y, "").value.ops))
    decreases |x|
  {
    var body := x + [op] + y;
    var right := Split(y, "").value;
    if x == "" {
      assert body[0] == op && body[1..] == y;
      assert y != "" ==> body[1] == y[0];
      assert [] + [op] + right.ops == [op] + right.ops;
    } else if StartsArrow(x) {
      assert body[2..] == x[2..] + [op] + y;
      SplitAtOp(x[2..], op, y, cur + "->");
    } else {
      assert !StartsArrow(body);
      assert body[0] == x[0] && body[1..] == x[1..] + [op] + y;
      SplitAtOp(x[1..], op, y, if IsOp(x[0]) then "" else cur + [x[0]]);
      if IsOp(x[0]) {
        var left := Split(x[1..], "").value;
        assert [Flush(cur).value] + (left.terms + right.terms) == [Flush(cur).value] + left.terms + right.terms;
        assert [x[0]] + (left.ops + [op] + right.ops) == [x[0]] + left.ops + [op] + right.ops;
      }
    }
  }

  lemma PrintedLeafTrimmed(leaf: Expr)
    requires Leaf(leaf)
    ensures Trimmed(Print(leaf)) && Print(leaf)[0] != '-'
  {
    if leaf.ArrowTerm? {
      assert Print(leaf)[0] == leaf.relation[0];
      assert Print(leaf)[|Print(leaf)| - 1] == leaf.target[|leaf.target| - 1];
    }
  }

  /** A printed term lexes back to itself, whatever blank precedes it. */
  lemma SplitLeaf(leaf: Expr, cur: string)
    requires Leaf(leaf) && Blank(cur)
    ensures Split(Print(leaf), cur) == Ok(Tokens([Print(leaf)], []))
  {
    var text := Print(leaf);
    if leaf.ArrowTerm? {
      var tail := "->" + leaf.target;
      assert text == leaf.relation + tail;
      SplitSkips(leaf.relation, tail, cur);
      assert tail[2..] == leaf.target && StartsArrow(tail);
      assert leaf.target + "" == leaf.target;
      SplitSkips(leaf.target, "", cur + leaf.relation + "->");
      assert cur + leaf.relation + "->" + leaf.target == cur + text;
    } else {
      assert text + "" == text;
      SplitSkips(text, "", cur);
    }
    PrintedLeafTrimmed(leaf);
    TrimPadded(cur, text, "");
    assert cur + text + "" == cur + text;
  }

  function TermsOf(e: Expr): (ts: seq<string>)
    requires Spine(e)
    ensures |ts| == |OpsOf(e)| + 1
    decreases Operators(e)
  {
    if Single(e) then [Print(e)] else TermsOf(Peel(e).before) + [Print(Peel(e).term)]
  }

  function OpsOf(e: Expr): seq<char>
    requires Spine(e)
    decreases Operators(e)
  {
    if Single(e) then [] else OpsOf(Peel(e).before) + [Peel(e).op]
  }

  /** The printed text of a spine lexes to its terms and operators. */
  lemma {:induction false} SplitPrinted(e: Expr)
    requires Spine(e)
    ensures Split(Print(e), "") == Ok(Tokens(TermsOf(e), OpsOf(e)))
    decreases Operators(e)
  {
    if Single(e) {
      SplitLeaf(e, "");
    } else {
      var l := Peel(e);
      PrintPeel(e);
      SplitPrinted(l.before);
      SplitTrailing(Print(l.before), "");
      SplitLeafAfterBlank(l.term);
      SplitAtOp(Print(l.before) + " ", l.op, " " + Print(l.term), "");
      assert OpsOf(l.before) + [l.op] + [] == OpsOf(e);
    }
  }

  lemma SplitLeafAfterBlank(leaf: Expr)
    requires Leaf(leaf)
    ensures Split(" " + Print(leaf), "") == Ok(Tokens([Print(leaf)], []))
  {
    SplitSkips(" ", Print(leaf), "");
    assert "" + " " == " ";
    SplitLeaf(leaf, " ");
  }

  // ---- Parsing what was printed ----

  /** The unresolved term the parser makes of a printed term. */
  function Unresolved(leaf: Expr): Expr {
    if leaf.ArrowTerm? then leaf else IdentTerm(Print(leaf))
  }

  lemma ArrowAtFirst(rel: string, rest: string)
    requires forall i :: 0 <= i < |rel| ==> !IsOp(rel[i])
    ensures ArrowAt(rel + "->" + rest) == |rel|
  {
    var t := rel + "->" + rest;
    var i := ArrowAt(t);
    assert t[|rel|] == '-' && t[|rel| + 1] == '>';
    assert forall k :: 0 <= k < |rel| ==> t[k] == rel[k];
  }

  lemma NoArrowIn(s: string)
    requires forall i :: 0 <= i < |s| ==> !IsOp(s[i])
    ensures ArrowAt(s) == |s|
  {
    var i := ArrowAt(s);
  }

  lemma ParsePrintedLeaf(leaf: Expr)
    requires Leaf(leaf)
    ensures ParseTerm(Print(leaf)) == Ok(Unresolved(leaf))
  {
    if leaf.ArrowTerm? {
      ArrowAtFirst(leaf.relation, leaf.target);
      var t := Print(leaf);
      assert t[..|leaf.relation|] == leaf.relation && t[|leaf.relation| + 2..] == leaf.target;
      NoArrowIn(leaf.target);
    } else {
      NoArrowIn(Print(leaf));
    }
  }

  lemma {:induction false} AssembleSnoc(cur: Expr, ops: seq<char>, terms: seq<string>, op: char, term: string)
    requires |ops| == |terms|
    requires Assemble(cur, ops, terms).Ok? && ParseTerm(term).Ok?
    ensures Assemble(cur, ops + [op], terms + [term])
         == Ok(Combine(Assemble(cur, ops, terms).value, op, ParseTerm(term).value))
    decreases |ops|
  {
    if ops == [] {
      assert ops + [op] == [op] && terms + [term] == [term];
    } else {
      assert (ops + [op])[1..] == ops[1..] + [op];
      assert (terms + [term])[1..] == terms[1..] + [term];
      AssembleSnoc(Combine(cur, ops[0], ParseTerm(terms[0]).value), ops[1..], terms[1..], op, term);
    }
  }

  /** The tree of a spine with its bare words unresolved again. */
  function Unresolve(e: Expr): Expr
    requires Spine(e)
    decreases Operators(e)
  {
    if Single(e) then Unresolved(e)
    else Combine(Unresolve(Peel(e).before), Peel(e).op, Unresolved(Peel(e).term))
  }

  lemma {:induction false} AssemblePrinted(e: Expr)
    requires Spine(e)
    ensures ParseTerm(TermsOf(e)[0]).Ok?
    ensures Assemble(ParseTerm(TermsOf(e)[0]).value, OpsOf(e), TermsOf(e)[1..]) == Ok(Unresolve(e))
    decreases Operators(e)
  {
    if Single(e) {
      ParsePrintedLeaf(e);
    } else {
      var l := Peel(e);
      AssemblePrinted(l.before);
      ParsePrintedLeaf(l.term);
      var terms := TermsOf(l.before);
      assert TermsOf(e)[0] == terms[0];
      assert TermsOf(e)[1..] == terms[1..] + [Print(l.term)];
      AssembleSnoc(ParseTerm(terms[0]).value, OpsOf(l.before), terms[1..], l.op, Print(l.term));
    }
  }

  /** Parsing the printed text gives the tree with its bare words unresolved. */
  lemma ParsePrinted(e: Expr)
    requires Spine(e)
    ensures Parse(Print(e)) == Ok(Unresolve(e))
  {
    SplitPrinted(e);
    AssemblePrinted(e);
  }

  lemma {:induction false} UnresolveRaw(e: Expr)
    requires Spine(e) && Raw(e)
    ensures Unresolve(e) == e
    decreases Operators(e)
  {
    if !Single(e) {
      UnresolveRaw(Peel(e).before);
    }
  }

  // ---- Every parsed tree is a raw spine ----

  /** A minus only as the first half of an arrow, no other operator. */
  predicate ArrowsOnly(s: string) {
    forall i :: 0 <= i < |s| && IsOp(s[i]) ==> s[i] == '-' && i + 1 < |s| && s[i + 1] == '>'
  }

  lemma TrimKeepsArrowsOnly(s: string)
    requires ArrowsOnly(s)
    ensures ArrowsOnly(Trim(s)) && (Trim(s) != "" ==> Trimmed(Trim(s)))
  {
    var a, b := TrimIsSlice(s);
    forall i | 0 <= i < b - a && IsOp(s[a..b][i]) ensures s[a..b][i] == '-' && i + 1 < b - a && s[a..b][i + 1] == '>' {
      assert s[a + i] == s[a..b][i];
      assert s[a + i + 1] == '>';
    }
  }

  predicate CleanTokens(tokens: Tokens) {
    && (forall i :: 0 <= i < |tokens.terms| ==> Trimmed(tokens.terms[i]) && ArrowsOnly(tokens.terms[i]))
    && (forall i :: 0 <= i < |tokens.ops| ==> IsOp(tokens.ops[i]))
  }

  lemma {:induction false} SplitTermsClean(body: string, cur: string)
    requires ArrowsOnly(cur)
    ensures var r := Split(body, cur);
            r.Ok? ==> CleanTokens(r.value)
    decreases |body|
  {
    TrimKeepsArrowsOnly(cur);
    if body != "" {
      if StartsArrow(body) {
        assert ArrowsOnly(cur + "->");
        SplitTermsClean(body[2..], cur + "->");
      } else if IsOp(body[0]) {
        SplitTermsClean(body[1..], "");
      } else {
        SplitTermsClean(body[1..], cur + [body[0]]);
      }
    }
  }

  lemma NoOpBeforeArrow(t: string, k: nat)
    requires ArrowsOnly(t) && k < ArrowAt(t)
    ensures !IsOp(t[k])
  {
  }

  lemma ParsedTermIsLeaf(t: string)
    requires Trimmed(t) && ArrowsOnly(t) && ParseTerm(t).Ok?
    ensures RawLeaf(ParseTerm(t).value)
  {
    var i := ArrowAt(t);
    forall k | 0 <= k < i ensures !IsOp(t[k]) {
      NoOpBeforeArrow(t, k);
    }
    if i < |t| {
      assert ArrowsOnly(t[i + 2..]) by {
        var rest := t[i + 2..];
        assert forall k :: 0 <= k < |rest| ==> rest[k] == t[i + 2 + k];
      }
      TrimKeepsArrowsOnly(t[i + 2..]);
      var action := Trim(t[i + 2..]);
      forall k | 0 <= k < |action| ensures !IsOp(action[k]) {
        NoOpBeforeArrow(action, k);
      }
      assert ArrowsOnly(t[..i]);
      TrimKeepsArrowsOnly(t[..i]);
      var a, b := TrimIsSlice(t[..i]);
      assert Plain(Trim(t[..i]));
    }
  }

  lemma {:induction false} AssembledIsSpine(cur: Expr, ops: seq<char>, terms: seq<string>)
    requires |ops| == |terms|
    requires Spine(cur) && Raw(cur)
    requires forall i :: 0 <= i < |terms| ==> Trimmed(terms[i]) && ArrowsOnly(terms[i])
    requires forall i :: 0 <= i < |ops| ==> IsOp(ops[i])
    ensures var r := Assemble(cur, ops, terms);
            r.Ok? ==> Spine(r.value) && Raw(r.value)
    decreases |ops|
  {
    if ops != [] && ParseTerm(terms[0]).Ok? {
      ParsedTermIsLeaf(terms[0]);
      CombineKeepsSpine(cur, ops[0], ParseTerm(terms[0]).value);
      AssembledIsSpine(Combine(cur, ops[0], ParseTerm(terms[0]).value), ops[1..], terms[1..]);
    }
  }
}

/**
 * Rule bodies read term by term: what a body of words, arrows and operators
 * parses and resolves to (core/reach/parse.go:242-407).
 */
module Reading {
  import opened Wrappers
  import opened Schemas
  import opened Text
  import opened RuleText
  import opened Spines
  import opened RoundTrip

  /** The text is the printed form of the raw tree, which resolves on the type to the other. */
  ghost predicate Reads(t: TypeDef, text: string, raw: Expr, tree: Expr) {
    Spine(raw) && Raw(raw) && Print(raw) == text && Resolve(t, raw) == Ok(tree)
  }

  lemma ReadsWord(t: TypeDef, name: string)
    requires Plain(name) && name in t.relations
    ensures Reads(t, name, IdentTerm(name), RelationTerm(name))
  {
  }

  lemma ResolvePair(t: TypeDef, raw: Expr, tree: Expr, x: Expr, rx: Expr)
    requires Resolve(t, raw) == Ok(tree) && Resolve(t, x) == Ok(rx)
    ensures ResolveAll(t, [raw, x]) == Ok([tree, rx])
  {
    var pair := [raw, x];
    ResolveAllSnoc(t, [], x);
    assert [] + [x] == pair[1..];
    assert ResolveAll(t, []) == Ok([]);
    assert [] + [rx] == [rx] && [tree] + [rx] == [tree, rx];
  }

  lemma ResolveKeepsKind(t: TypeDef, raw: Expr, tree: Expr)
    requires Raw(raw) && Resolve(t, raw) == Ok(tree)
    ensures raw.Union? <==> tree.Union?
    ensures raw.Intersect? <==> tree.Intersect?
  {
  }

  lemma ResolveCombine(t: TypeDef, raw: Expr, tree: Expr, op: char, x: Expr, rx: Expr)
    requires Raw(raw) && Resolve(t, raw) == Ok(tree) && Resolve(t, x) == Ok(rx) && IsOp(op)
    ensures Resolve(t, Combine(raw, op, x)) == Ok(Combine(tree, op, rx))
  {
    ResolveKeepsKind(t, raw, tree);
    ResolvePair(t, raw, tree, x, rx);
    if (raw.Union? && op == '+') || (raw.Intersect? && op == '&') {
      ResolveAllSnoc(t, raw.terms, x);
    }
  }

  /** One more operator and term on the right of a body. */
  lemma ReadsMore(t: TypeDef, text: string, raw: Expr, tree: Expr, op: char, x: Expr, rx: Expr)
    requires Reads(t, text, raw, tree) && RawLeaf(x) && Resolve(t, x) == Ok(rx) && IsOp(op)
    ensures Reads(t, (text + " ") + [op] + (" " + Print(x)), Combine(raw, op, x), Combine(tree, op, rx))
  {
    CombineKeepsSpine(raw, op, x);
    PeelCombine(raw, op, x);
    PrintPeel(Combine(raw, op, x));
    ResolveCombine(t, raw, tree, op, x, rx);
  }

  lemma {:induction false} SplitPadded(body: string, cur: string)
    ensures Split(body, " " + cur) == Split(body, cur)
    decreases |body|
  {
    TrimLeftPads(" ", cur);
    if body == "" {
    } else if StartsArrow(body) {
      assert " " + cur + "->" == " " + (cur + "->");
      SplitPadded(body[2..], cur + "->");
    } else if !IsOp(body[0]) {
      assert " " + cur + [body[0]] == " " + (cur + [body[0]]);
      SplitPadded(body[1..], cur + [body[0]]);
    }
  }

  /** A body may follow its `=` after a blank. */
  lemma ReadsParse(t: TypeDef, text: string, raw: Expr, tree: Expr)
    requires Reads(t, text, raw, tree)
    ensures Parse(text) == Ok(raw) && Parse(" " + text) == Ok(raw)
  {
    ParsePrinted(raw);
    UnresolveRaw(raw);
    SplitSkips(" ", text, "");
    SplitPadded(text, "");
    assert "" + " " == " " && " " + "" == " ";
  }
}
