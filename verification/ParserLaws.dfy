/**
 * What the schema parser makes of words, terms and lines, stated on the text: how
 * bare words are resolved, what a term is, what each line does or is refused for,
 * and that nothing is declared twice (core/reach/parse.go:25-232, 328-407).
 */
module ParserLaws {
  import opened Wrappers
  import opened Schemas
  import opened Text
  import opened RuleText
  import opened SchemaText
  import RelationLines
  import Validation

  // ---- Bare words ----

  /**
   * The resolved expression has the shape of the parsed one, with every bare word
   * read as the type's relation of that name or, failing that, as its rule.
   */
  predicate ReadsAs(t: TypeDef, parsed: Expr, resolved: Expr)
    decreases parsed
  {
    match parsed
    case IdentTerm(name) =>
      || (name in t.relations && resolved == RelationTerm(name))
      || (name !in t.relations && name in t.rules && resolved == RuleTerm(name))
    case Union(terms) => resolved.Union? && AllReadAs(t, terms, resolved.terms)
    case Intersect(terms) => resolved.Intersect? && AllReadAs(t, terms, resolved.terms)
    case Exclude(base, subtract) => resolved.Exclude? && ReadsAs(t, base, resolved.base) && ReadsAs(t, subtract, resolved.subtract)
    case _ => resolved == parsed
  }

  predicate AllReadAs(t: TypeDef, parsed: seq<Expr>, resolved: seq<Expr>)
    decreases parsed
  {
    |parsed| == |resolved| && forall i :: 0 <= i < |parsed| ==> ReadsAs(t, parsed[i], resolved[i])
  }

  /** Every bare word names a relation or a rule of the type. */
  predicate Nameable(t: TypeDef, parsed: Expr) {
    match parsed
    case IdentTerm(name) => name in t.relations || name in t.rules
    case Union(terms) => forall e :: e in terms ==> Nameable(t, e)
    case Intersect(terms) => forall e :: e in terms ==> Nameable(t, e)
    case Exclude(base, subtract) => Nameable(t, base) && Nameable(t, subtract)
    case _ => true
  }

  /** Resolution succeeds exactly when every bare word can be named, and then reads each as it should. */
  lemma {:induction false} ResolutionIsReading(t: TypeDef, e: Expr)
    ensures Resolve(t, e).Ok? <==> Nameable(t, e)
    ensures Resolve(t, e).Ok? ==> ReadsAs(t, e, Resolve(t, e).value)
    decreases e
  {
    match e {
      case Union(terms) => AllResolutionsRead(t, terms);
      case Intersect(terms) => AllResolutionsRead(t, terms);
      case Exclude(base, subtract) =>
        ResolutionIsReading(t, base);
        ResolutionIsReading(t, subtract);
      case _ =>
    }
  }

  lemma {:induction false} AllResolutionsRead(t: TypeDef, terms: seq<Expr>)
    ensures ResolveAll(t, terms).Ok? <==> forall e :: e in terms ==> Nameable(t, e)
    ensures ResolveAll(t, terms).Ok? ==> AllReadAs(t, terms, ResolveAll(t, terms).value)
    decreases terms
  {
    if terms != [] {
      ResolutionIsReading(t, terms[0]);
      AllResolutionsRead(t, terms[1..]);
      assert forall e :: e in terms <==> e == terms[0] || e in terms[1..];
    }
  }

  // ---- Terms ----

  ghost predicate HasArrow(s: string) {
    exists i :: 0 <= i && i + 1 < |s| && s[i] == '-' && s[i + 1] == '>'
  }

  lemma ArrowAtIsFirst(s: string)
    ensures ArrowAt(s) < |s| <==> HasArrow(s)
  {
  }

  /** A term without an arrow is a bare word. */
  lemma WordTerm(s: string)
    ensures ParseTerm(s) == Ok(IdentTerm(s)) <==> !HasArrow(s)
  {
    ArrowAtIsFirst(s);
  }

  /** A term cut at its first arrow is an arrow between the trimmed sides, unless one is blank or the right one has another arrow. */
  lemma ArrowTermRead(s: string, i: nat)
    requires i + 1 < |s| && s[i] == '-' && s[i + 1] == '>'
    requires forall j :: 0 <= j < i ==> !(s[j] == '-' && s[j + 1] == '>')
    ensures var rel, target := Trim(s[..i]), Trim(s[i + 2..]);
            ParseTerm(s) == if rel == "" || target == "" then Err(MalformedArrow(s))
                            else if HasArrow(target) then Err(ChainedArrow(s))
                            else Ok(ArrowTerm(rel, target))
  {
    assert HasArrow(s);
    ArrowAtIsFirst(s);
    assert ArrowAt(s) == i;
    ArrowAtIsFirst(Trim(s[i + 2..]));
  }

  // ---- Lines ----

  /** The line's first word and what follows it, trimmed. */
  function Word(line: string): string {
    Cut(line, ' ').before
  }

  function After(line: string): string {
    Trim(Cut(line, ' ').after)
  }

  lemma NamespaceLineDoes(st: ParserState, line: string)
    requires st.Sound() && Word(line) == "namespace"
    ensures ReadLine(st, line) == if After(line) == "" then Err(NamespaceNeedsName)
                                  else Ok(ParserState(st.schema.(namespace := After(line)), None))
  {
  }

  /** The trimmed parts between commas that are not blank, in order, are added. */
  lemma ActionLineDoes(st: ParserState, line: string)
    requires st.Sound() && Word(line) == "action"
    ensures ReadLine(st, line) == Ok(ParserState(st.schema.(actions := st.schema.actions + Items(SplitOn(After(line), ','))), None))
  {
    assert "namespace"[0] == 'n' && "action"[0] == 'a';
  }

  /** A type is opened empty, once. */
  lemma TypeLineDoes(st: ParserState, line: string)
    requires st.Sound() && Word(line) == "type"
    ensures var name := After(line);
            var r := ReadLine(st, line);
            && (r.Err? <==> name == "" || name in st.schema.types)
            && (r.Ok? ==> r.value == ParserState(st.schema.(types := st.schema.types[name := TypeDef(name, map[], map[])]), Some(name)))
  {
    assert "namespace"[0] == 'n' && "action"[0] == 'a' && "type"[0] == 't';
  }

  /** A line with an arrow adds a relation to the open type, once, with its targets. */
  lemma TypeRelationLineDoes(st: ParserState, line: string)
    requires st.Sound() && Word(line) == "relation" && HasArrow(After(line))
    ensures var rest := After(line);
            var i := ArrowAt(rest);
            var name := Trim(rest[..i]);
            var targets := ReadTargets(Items(SplitOn(rest[i + 2..], '|')));
            var r := ReadLine(st, line);
            && (r.Err? <==> st.current.None? || name == "" || name in st.Block().relations || targets == [])
            && (r.Ok? ==> r.value == st.WithBlock(st.Block().(relations := st.Block().relations[name := targets])))
  {
    RelationWord();
    ArrowAtIsFirst(After(line));
  }

  lemma RelationWord()
    ensures "relation" != "namespace" && "relation" != "action" && "relation" != "type"
    ensures "rule" != "namespace" && "rule" != "action" && "rule" != "type" && "rule" != "relation"
  {
    assert "namespace"[0] == 'n' && "action"[0] == 'a' && "type"[0] == 't' && "relation"[1] == 'e' && "rule"[1] == 'u';
    assert "relation"[0] == 'r' && "rule"[0] == 'r';
  }

  /** A line without an arrow declares a relation of the namespace, once, with known modifiers only. */
  lemma RelationLineDoes(st: ParserState, line: string)
    requires st.Sound() && Word(line) == "relation" && !HasArrow(After(line))
    ensures var h := Cut(After(line), ':');
            var name := Trim(h.before);
            var mods := if h.found then Items(SplitOn(h.after, ',')) else [];
            var r := ReadLine(st, line);
            && (r.Err? <==> name == "" || name in st.schema.relations || exists mod :: mod in mods && !RelationLines.Recognised(mod))
            && (r.Ok? ==> exists def: RelationDef ::
                  (def.name == name && r.value == st.(schema := st.schema.(relations := st.schema.relations[name := def]))))
  {
    var h := Cut(After(line), ':');
    RelationWord();
    ArrowAtIsFirst(After(line));
    RelationLines.RelationRefusedIff(st, After(line));
    RelationLines.OnlyTheseWords(RelationDef(Trim(h.before), false, WildcardNone), if h.found then Items(SplitOn(h.after, ',')) else []);
  }

  /** A rule of the open type is added, once, with its parsed body. */
  lemma RuleLineDoes(st: ParserState, line: string)
    requires st.Sound() && Word(line) == "rule"
    ensures var h := Cut(After(line), '=');
            var action := Trim(h.before);
            var body := Parse(h.after);
            var r := ReadLine(st, line);
            && (r.Err? <==> st.current.None? || !h.found || action == "" || action in st.Block().rules || body.Err?)
            && (r.Ok? ==> r.value == st.WithBlock(st.Block().(rules := st.Block().rules[action := body.value])))
  {
    RelationWord();
  }

  lemma OtherLinesAreRefused(st: ParserState, line: string)
    requires st.Sound()
    requires Word(line) != "namespace" && Word(line) != "action" && Word(line) != "type" && Word(line) != "relation" && Word(line) != "rule"
    ensures ReadLine(st, line) == Err(UnknownKeyword(Word(line)))
  {
  }

  // ---- Nothing is declared twice ----

  lemma LineKeepsNames(st: ParserState, line: string)
    requires st.Sound() && ReadLine(st, line).Ok?
    ensures var next := ReadLine(st, line).value;
            st.schema.types.Keys <= next.schema.types.Keys && st.schema.relations.Keys <= next.schema.relations.Keys
  {
  }

  /** What a line of the text says, without its comment. */
  function Said(raw: string): string {
    Trim(StripComment(raw))
  }

  /** The line opens the type. */
  predicate OpensType(raw: string, name: string) {
    Word(Said(raw)) == "type" && After(Said(raw)) == name
  }

  /** The line declares the relation of the namespace. */
  predicate DeclaresRelation(raw: string, name: string) {
    && Word(Said(raw)) == "relation" && ArrowAt(After(Said(raw))) == |After(Said(raw))|
    && Trim(Cut(After(Said(raw)), ':').before) == name
  }

  /** The line opens the type, or declares the relation, of that name. */
  predicate Claims(raw: string, typ: bool, name: string) {
    if typ then OpensType(raw, name) else DeclaresRelation(raw, name)
  }

  predicate Known(schema: Schema, typ: bool, name: string) {
    if typ then name in schema.types else name in schema.relations
  }

  lemma KnownStays(st: ParserState, line: string, typ: bool, name: string)
    requires st.Sound() && Known(st.schema, typ, name) && ReadLine(st, line).Ok?
    ensures Known(ReadLine(st, line).value.schema, typ, name)
  {
    LineKeepsNames(st, line);
  }

  /** A line that claims a known name fails, and one that does not fail makes the name known. */
  lemma ClaimIsFirst(st: ParserState, raw: string, typ: bool, name: string)
    requires st.Sound() && Claims(raw, typ, name)
    ensures Said(raw) != ""
    ensures ReadLine(st, Said(raw)).Ok? ==> !Known(st.schema, typ, name) && Known(ReadLine(st, Said(raw)).value.schema, typ, name)
  {
    RelationWord();
    if typ {
      TypeLineDoes(st, Said(raw));
    }
  }

  /** How the first line of a text is taken. */
  lemma FirstLine(st: ParserState, lines: seq<string>)
    requires st.Sound() && lines != [] && ReadLines(st, lines).Ok?
    ensures if Said(lines[0]) == "" then ReadLines(st, lines[1..]) == ReadLines(st, lines)
            else ReadLine(st, Said(lines[0])).Ok? && ReadLines(ReadLine(st, Said(lines[0])).value, lines[1..]) == ReadLines(st, lines)
  {
  }

  lemma {:induction false} KnownIsRefused(st: ParserState, lines: seq<string>, typ: bool, name: string, j: nat)
    requires st.Sound() && j < |lines| && Known(st.schema, typ, name) && Claims(lines[j], typ, name)
    ensures ReadLines(st, lines).Err?
    decreases |lines|
  {
    if ReadLines(st, lines).Ok? {
      FirstLine(st, lines);
      var rest := lines[1..];
      if j == 0 {
        ClaimIsFirst(st, lines[0], typ, name);
      } else {
        assert rest[j - 1] == lines[j];
        if Said(lines[0]) != "" {
          KnownStays(st, Said(lines[0]), typ, name);
          KnownIsRefused(ReadLine(st, Said(lines[0])).value, rest, typ, name, j - 1);
        } else {
          KnownIsRefused(st, rest, typ, name, j - 1);
        }
      }
    }
  }

  /** Where a text that is read through stands before its i-th line. */
  lemma {:induction false} ReadTo(st: ParserState, lines: seq<string>, i: nat) returns (mid: ParserState)
    requires st.Sound() && i <= |lines| && ReadLines(st, lines).Ok?
    ensures mid.Sound() && ReadLines(mid, lines[i..]) == ReadLines(st, lines)
    decreases i
  {
    if i == 0 {
      mid := st;
      assert lines[0..] == lines;
    } else {
      FirstLine(st, lines);
      assert lines[1..][i - 1..] == lines[i..];
      if Said(lines[0]) == "" {
        mid := ReadTo(st, lines[1..], i - 1);
      } else {
        mid := ReadTo(ReadLine(st, Said(lines[0])).value, lines[1..], i - 1);
      }
    }
  }

  lemma TwiceIsRefused(st: ParserState, lines: seq<string>, typ: bool, name: string, i: nat, j: nat)
    requires st.Sound() && i < j < |lines| && Claims(lines[i], typ, name) && Claims(lines[j], typ, name)
    ensures ReadLines(st, lines).Err?
  {
    if ReadLines(st, lines).Ok? {
      var mid := ReadTo(st, lines, i);
      var rest := lines[i..];
      assert rest[0] == lines[i] && rest[1..][j - i - 1] == lines[j];
      FirstLine(mid, rest);
      ClaimIsFirst(mid, rest[0], typ, name);
      KnownIsRefused(ReadLine(mid, Said(rest[0])).value, rest[1..], typ, name, j - i - 1);
    }
  }

  /** A text that opens a type twice, or declares a relation of the namespace twice, is refused. */
  lemma DeclaredTwiceIsRefused(src: string, typ: bool, name: string, i: nat, j: nat)
    requires i < j < |SplitOn(src, '\n')|
    requires Claims(SplitOn(src, '\n')[i], typ, name) && Claims(SplitOn(src, '\n')[j], typ, name)
    ensures ParseSchema(src).Err? && ParseSchema(src).error.BadLine?
  {
    TwiceIsRefused(START, SplitOn(src, '\n'), typ, name, i, j);
  }

  /** A text that is accepted is resolved and valid. */
  lemma AcceptedIsValid(src: string)
    requires ParseSchema(src).Ok?
    ensures Validation.ValidSchema(ParseSchema(src).value)
  {
  }
}
