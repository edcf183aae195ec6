/**
 * The schema language: a line parser that builds a schema step by step, then
 * resolves bare words and validates (core/reach/parse.go:25-232, 345-407).
 * Line numbers and message texts are not modelled.
 */
module SchemaText {
  import opened Wrappers
  import opened Schemas
  import opened Text
  import RuleText
  import Validation

  // ---- Cutting text ----

  datatype Halves = Halves(before: string, after: string, found: bool)

  /** strings.Cut on one character. */
  function Cut(s: string, c: char): (h: Halves)
    ensures h.found ==> |h.before| + 1 + |h.after| == |s|
  {
    if s == "" then Halves("", "", false)
    else if s[0] == c then Halves("", s[1..], true)
    else
      var h := Cut(s[1..], c);
      h.(before := [s[0]] + h.before)
  }

  /** strings.Split on one character. */
  function SplitOn(s: string, c: char): (parts: seq<string>)
    ensures parts != []
    decreases |s|
  {
    var h := Cut(s, c);
    if h.found then [h.before] + SplitOn(h.after, c) else [s]
  }

  /** The trimmed parts that are not blank. */
  function Items(parts: seq<string>): seq<string> {
    if parts == [] then []
    else if Trim(parts[0]) == "" then Items(parts[1..])
    else [Trim(parts[0])] + Items(parts[1..])
  }

  /** The text before the first `//`. */
  function BeforeSlashes(s: string): string {
    if s == "" || (|s| >= 2 && s[0] == '/' && s[1] == '/') then ""
    else [s[0]] + BeforeSlashes(s[1..])
  }

  predicate StartsComment(s: string, i: nat)
    requires i < |s|
  {
    s[i] == '#' && (i == 0 || s[i - 1] == ' ' || s[i - 1] == '\t')
  }

  /** The first `#` from i on that starts the text or follows a blank, or the length. */
  function HashAt(s: string, i: nat): (j: nat)
    requires i <= |s|
    ensures i <= j <= |s|
    decreases |s| - i
  {
    if i == |s| || StartsComment(s, i) then i else HashAt(s, i + 1)
  }

  function StripComment(s: string): string {
    var t := BeforeSlashes(s);
    t[..HashAt(t, 0)]
  }

  method Strip(s: string) returns (r: string)
    ensures r == StripComment(s)
  {
    var t := BeforeSlashes(s);
    for i := 0 to |t|
      invariant HashAt(t, 0) == HashAt(t, i)
    {
      if t[i] != '#' {
        continue;
      }
      if i == 0 || t[i - 1] == ' ' || t[i - 1] == '\t' {
        return t[..i];
      }
    }
    r := t;
  }

  // ---- What each line does to the schema ----

  datatype LineError =
    | NamespaceNeedsName
    | TypeNeedsName
    | TypeTwice(name: string)
    | RelationNeedsName
    | RelationTwice(name: string)
    | UnknownModifier(word: string)
    | UnknownWildcard(arg: string)
    | RelationOutsideType
    | TypeRelationTwice(typ: string, name: string)
    | NoTargets(name: string)
    | RuleOutsideType
    | RuleNeedsBody
    | RuleTwice(typ: string, action: string)
    | BadRule(action: string, why: RuleText.ParseError)
    | UnknownKeyword(word: string)

  /** The schema so far and the type whose block is open. */
  datatype ParserState = ParserState(schema: Schema, current: Option<string>) {
    predicate Sound() {
      current.Some? ==> current.value in schema.types
    }

    function Block(): TypeDef
      requires Sound() && current.Some?
    {
      schema.types[current.value]
    }

    /** The open block replaced. */
    function WithBlock(t: TypeDef): ParserState
      requires Sound() && current.Some?
    {
      this.(schema := schema.(types := schema.types[current.value := t]))
    }
  }

  const START := ParserState(Schema("", [], map[], map[]), None)

  function ParseWildcard(arg: string): Result<WildcardPos, LineError> {
    if arg == "" || arg == "none" then Ok(WildcardNone)
    else if arg == "subject" then Ok(WildcardSubject)
    else if arg == "object" then Ok(WildcardObject)
    else if arg == "both" then Ok(WildcardBoth)
    else Err(UnknownWildcard(arg))
  }

  /** One modifier of a relation declaration. */
  function Modify(def: RelationDef, mod: string): Result<RelationDef, LineError> {
    var h := Cut(mod, ' ');
    if h.before == "direct" then Ok(def.(transitive := false))
    else if h.before == "transitive" then Ok(def.(transitive := true))
    else if h.before == "wildcard" then
      match ParseWildcard(Trim(h.after))
      case Ok(w) => Ok(def.(wildcard := w))
      case Err(e) => Err(e)
    else Err(UnknownModifier(mod))
  }

  function ModifyAll(def: RelationDef, mods: seq<string>): Result<RelationDef, LineError>
    decreases |mods|
  {
    if mods == [] then Ok(def)
    else match Modify(def, mods[0])
      case Ok(next) => ModifyAll(next, mods[1..])
      case Err(e) => Err(e)
  }

  function ReadTarget(text: string): TargetSpec {
    var h := Cut(text, '#');
    TargetSpec(Trim(h.before), Trim(h.after))
  }

  function ReadTargets(items: seq<string>): seq<TargetSpec> {
    if items == [] then [] else [ReadTarget(items[0])] + ReadTargets(items[1..])
  }

  function NamespaceRelation(st: ParserState, rest: string): Result<ParserState, LineError> {
    var h := Cut(rest, ':');
    var name := Trim(h.before);
    if name == "" then Err(RelationNeedsName)
    else if name in st.schema.relations then Err(RelationTwice(name))
    else
      var plain := RelationDef(name, false, WildcardNone);
      match ModifyAll(plain, if h.found then Items(SplitOn(h.after, ',')) else [])
      case Ok(def) => Ok(st.(schema := st.schema.(relations := st.schema.relations[name := def])))
      case Err(e) => Err(e)
  }

  function TypeRelation(st: ParserState, rest: string): Result<ParserState, LineError>
    requires st.Sound() && RuleText.ArrowAt(rest) < |rest|
  {
    if st.current.None? then Err(RelationOutsideType)
    else
      var i := RuleText.ArrowAt(rest);
      var t, name := st.Block(), Trim(rest[..i]);
      if name == "" then Err(RelationNeedsName)
      else if name in t.relations then Err(TypeRelationTwice(t.name, name))
      else
        var targets := ReadTargets(Items(SplitOn(rest[i + 2..], '|')));
        if targets == [] then Err(NoTargets(name))
        else Ok(st.WithBlock(t.(relations := t.relations[name := targets])))
  }

  function ReadRule(st: ParserState, rest: string): Result<ParserState, LineError>
    requires st.Sound()
  {
    if st.current.None? then Err(RuleOutsideType)
    else
      var h := Cut(rest, '=');
      var t, action := st.Block(), Trim(h.before);
      if !h.found || action == "" then Err(RuleNeedsBody)
      else if action in t.rules then Err(RuleTwice(t.name, action))
      else match RuleText.Parse(h.after)
        case Ok(expr) => Ok(st.WithBlock(t.(rules := t.rules[action := expr])))
        case Err(e) => Err(BadRule(action, e))
  }

  function OpenType(st: ParserState, name: string): Result<ParserState, LineError> {
    if name == "" then Err(TypeNeedsName)
    else if name in st.schema.types then Err(TypeTwice(name))
    else Ok(ParserState(st.schema.(types := st.schema.types[name := TypeDef(name, map[], map[])]), Some(name)))
  }

  function ReadLine(st: ParserState, line: string): (r: Result<ParserState, LineError>)
    requires st.Sound()
    ensures r.Ok? ==> r.value.Sound()
  {
    var h := Cut(line, ' ');
    var word, rest := h.before, Trim(h.after);
    if word == "namespace" then
      if rest == "" then Err(NamespaceNeedsName)
      else Ok(ParserState(st.schema.(namespace := rest), None))
    else if word == "action" then
      Ok(ParserState(st.schema.(actions := st.schema.actions + Items(SplitOn(rest, ','))), None))
    else if word == "type" then OpenType(st, rest)
    else if word == "relation" then
      if RuleText.ArrowAt(rest) < |rest| then TypeRelation(st, rest) else NamespaceRelation(st, rest)
    else if word == "rule" then ReadRule(st, rest)
    else Err(UnknownKeyword(word))
  }

  /** Reads lines in order; a blank or commented line changes nothing. */
  function ReadLines(st: ParserState, lines: seq<string>): (r: Result<ParserState, LineError>)
    requires st.Sound()
    ensures r.Ok? ==> r.value.Sound()
    decreases |lines|
  {
    if lines == [] then Ok(st)
    else
      var line := Trim(StripComment(lines[0]));
      if line == "" then ReadLines(st, lines[1..])
      else match ReadLine(st, line)
        case Ok(next) => ReadLines(next, lines[1..])
        case Err(e) => Err(e)
  }

  // ---- resolve and Parse ----

  datatype SchemaError = BadLine(error: LineError) | UnresolvedName | InvalidSchema

  predicate TypeResolves(t: TypeDef) {
    forall a :: a in t.rules ==> RuleText.Resolve(t, t.rules[a]).Ok?
  }

  function ResolvedType(t: TypeDef): TypeDef
    requires TypeResolves(t)
  {
    t.(rules := map a | a in t.rules :: RuleText.Resolve(t, t.rules[a]).value)
  }

  predicate SchemaResolves(schema: Schema) {
    forall typ :: typ in schema.types ==> TypeResolves(schema.types[typ])
  }

  function ResolvedSchema(schema: Schema): Schema
    requires SchemaResolves(schema)
  {
    schema.(types := map typ | typ in schema.types :: ResolvedType(schema.types[typ]))
  }

  function Finish(schema: Schema): Result<Schema, SchemaError> {
    if !SchemaResolves(schema) then Err(UnresolvedName)
    else if !Validation.ValidSchema(ResolvedSchema(schema)) then Err(InvalidSchema)
    else Ok(ResolvedSchema(schema))
  }

  function ParseSchema(src: string): Result<Schema, SchemaError> {
    match ReadLines(START, SplitOn(src, '\n'))
    case Err(e) => Err(BadLine(e))
    case Ok(st) => Finish(st.schema)
  }

  /** Resolution reads the names of a type's rules, never their bodies. */
  lemma {:induction false} ResolveReadsNames(t: TypeDef, u: TypeDef, e: Expr)
    requires t.relations == u.relations && t.rules.Keys == u.rules.Keys
    ensures RuleText.Resolve(t, e) == RuleText.Resolve(u, e)
    decreases e
  {
    if e.Union? || e.Intersect? {
      ResolveAllReadsNames(t, u, e.terms);
    } else if e.Exclude? {
      ResolveReadsNames(t, u, e.base);
      ResolveReadsNames(t, u, e.subtract);
    }
  }

  lemma {:induction false} ResolveAllReadsNames(t: TypeDef, u: TypeDef, terms: seq<Expr>)
    requires t.relations == u.relations && t.rules.Keys == u.rules.Keys
    ensures RuleText.ResolveAll(t, terms) == RuleText.ResolveAll(u, terms)
    decreases terms
  {
    if terms != [] {
      ResolveReadsNames(t, u, terms[0]);
      ResolveAllReadsNames(t, u, terms[1..]);
    }
  }

  // ---- The parser, updating its fields ----

  class Parser {
    var schema: Schema
    var current: Option<string>

    constructor ()
      ensures State() == START
    {
      schema := START.schema;
      current := None;
    }

    function State(): ParserState
      reads this
    {
      ParserState(schema, current)
    }

    /** A line either leads to the state its reading gives, or fails and changes nothing. */
    ghost predicate Took(before: ParserState, read: Result<ParserState, LineError>, err: Option<LineError>)
      reads this
    {
      match read
      case Ok(st) => err.None? && State() == st
      case Err(e) => err == Some(e) && State() == before
    }

    method Line(line: string) returns (err: Option<LineError>)
      requires State().Sound()
      modifies this
      ensures Took(old(State()), ReadLine(old(State()), line), err)
    {
      var h := Cut(line, ' ');
      var rest := Trim(h.after);
      err := None;
      if h.before == "namespace" {
        if rest == "" {
          return Some(NamespaceNeedsName);
        }
        schema := schema.(namespace := rest);
        current := None;
      } else if h.before == "action" {
        AddActions(rest);
        current := None;
      } else if h.before == "type" {
        if rest == "" {
          return Some(TypeNeedsName);
        }
        if rest in schema.types {
          return Some(TypeTwice(rest));
        }
        schema := schema.(types := schema.types[rest := TypeDef(rest, map[], map[])]);
        current := Some(rest);
      } else if h.before == "relation" {
        if RuleText.ArrowAt(rest) < |rest| {
          err := AddTypeRelation(rest);
        } else {
          err := AddRelation(rest);
        }
      } else if h.before == "rule" {
        err := AddRule(rest);
      } else {
        err := Some(UnknownKeyword(h.before));
      }
    }

    method AddActions(rest: string)
      modifies this`schema
      ensures schema == old(schema).(actions := old(schema.actions) + Items(SplitOn(rest, ',')))
    {
      var parts := SplitOn(rest, ',');
      for i := 0 to |parts|
        invariant schema == old(schema).(actions := schema.actions)
        invariant schema.actions + Items(parts[i..]) == old(schema.actions) + Items(parts)
      {
        var a := Trim(parts[i]);
        ItemsStep(parts, i);
        if a == "" {
          continue;
        }
        schema := schema.(actions := schema.actions + [a]);
      }
      assert Items(parts[|parts|..]) == [];
    }

    method AddRelation(rest: string) returns (err: Option<LineError>)
      modifies this`schema
      ensures Took(old(State()), NamespaceRelation(old(State()), rest), err)
    {
      var h := Cut(rest, ':');
      var name := Trim(h.before);
      if name == "" {
        return Some(RelationNeedsName);
      }
      if name in schema.relations {
        return Some(RelationTwice(name));
      }
      var def := RelationDef(name, false, WildcardNone);
      if h.found {
        var parts := SplitOn(h.after, ',');
        for i := 0 to |parts|
          invariant schema == old(schema)
          invariant ModifyAll(def, Items(parts[i..])) == ModifyAll(RelationDef(name, false, WildcardNone), Items(parts))
        {
          ItemsStep(parts, i);
          var mod := Trim(parts[i]);
          if mod == "" {
            continue;
          }
          var next := Modify(def, mod);
          if next.Err? {
            return Some(next.error);
          }
          def := next.value;
        }
        assert Items(parts[|parts|..]) == [];
      }
      schema := schema.(relations := schema.relations[name := def]);
      err := None;
    }

    method AddTypeRelation(rest: string) returns (err: Option<LineError>)
      requires State().Sound() && RuleText.ArrowAt(rest) < |rest|
      modifies this`schema
      ensures Took(old(State()), TypeRelation(old(State()), rest), err)
    {
      if current.None? {
        return Some(RelationOutsideType);
      }
      var t := schema.types[current.value];
      var i := RuleText.ArrowAt(rest);
      var name := Trim(rest[..i]);
      if name == "" {
        return Some(RelationNeedsName);
      }
      if name in t.relations {
        return Some(TypeRelationTwice(t.name, name));
      }
      var out := CollectTargets(SplitOn(rest[i + 2..], '|'));
      if out == [] {
        return Some(NoTargets(name));
      }
      schema := schema.(types := schema.types[current.value := t.(relations := t.relations[name := out])]);
      err := None;
    }

    method AddRule(rest: string) returns (err: Option<LineError>)
      requires State().Sound()
      modifies this`schema
      ensures Took(old(State()), ReadRule(old(State()), rest), err)
    {
      if current.None? {
        return Some(RuleOutsideType);
      }
      var t := schema.types[current.value];
      var h := Cut(rest, '=');
      var action := Trim(h.before);
      if !h.found || action == "" {
        return Some(RuleNeedsBody);
      }
      if action in t.rules {
        return Some(RuleTwice(t.name, action));
      }
      var expr := RuleText.ParseExpr(h.after);
      if expr.Err? {
        return Some(BadRule(action, expr.error));
      }
      schema := schema.(types := schema.types[current.value := t.(rules := t.rules[action := expr.value])]);
      err := None;
    }

    /** Resolves every rule in place; fails when some bare word names nothing. */
    method ResolveRules() returns (ok: bool)
      modifies this`schema
      ensures ok <==> SchemaResolves(old(schema))
      ensures ok ==> schema == ResolvedSchema(old(schema))
    {
      ghost var was := schema;
      var todo := schema.types.Keys;
      while todo != {}
        invariant todo <= was.types.Keys
        invariant forall typ :: typ in was.types.Keys - todo ==> TypeResolves(was.types[typ])
        invariant schema.types.Keys == was.types.Keys && schema == was.(types := schema.types)
        invariant forall typ :: typ in was.types ==>
          schema.types[typ] == if typ in todo then was.types[typ] else ResolvedType(was.types[typ])
      {
        var typ :| typ in todo;
        var t := ResolveType(schema.types[typ]);
        if t.None? {
          return false;
        }
        schema := schema.(types := schema.types[typ := t.value]);
        todo := todo - {typ};
      }
      ok := true;
    }
  }

  lemma ItemsStep(parts: seq<string>, i: nat)
    requires i < |parts|
    ensures Items(parts[i..]) == (if Trim(parts[i]) == "" then [] else [Trim(parts[i])]) + Items(parts[i + 1..])
  {
    assert parts[i..][1..] == parts[i + 1..];
  }

  method CollectTargets(parts: seq<string>) returns (out: seq<TargetSpec>)
    ensures out == ReadTargets(Items(parts))
  {
    out := [];
    for i := 0 to |parts|
      invariant out + ReadTargets(Items(parts[i..])) == ReadTargets(Items(parts))
    {
      ItemsStep(parts, i);
      var t := Trim(parts[i]);
      if t == "" {
        continue;
      }
      out := out + [ReadTarget(t)];
    }
  }

  /** Resolves the rules of one type one after the other. */
  method ResolveType(t: TypeDef) returns (r: Option<TypeDef>)
    ensures r.Some? <==> TypeResolves(t)
    ensures r.Some? ==> r.value == ResolvedType(t)
  {
    var now := t;
    var todo := t.rules.Keys;
    while todo != {}
      invariant todo <= t.rules.Keys && now.rules.Keys == t.rules.Keys && now == t.(rules := now.rules)
      invariant forall a :: a in t.rules.Keys - todo ==> RuleText.Resolve(t, t.rules[a]) == Ok(now.rules[a])
      invariant forall a :: a in todo ==> now.rules[a] == t.rules[a]
    {
      var a :| a in todo;
      var expr := RuleText.Resolve(now, now.rules[a]);
      ResolveReadsNames(now, t, t.rules[a]);
      if expr.Err? {
        return None;
      }
      now := now.(rules := now.rules[a := expr.value]);
      todo := todo - {a};
    }
    r := Some(now);
  }

  method ParseText(src: string) returns (r: Result<Schema, SchemaError>)
    ensures r == ParseSchema(src)
  {
    var p := new Parser();
    var lines := SplitOn(src, '\n');
    for i := 0 to |lines|
      invariant p.State().Sound()
      invariant ReadLines(p.State(), lines[i..]) == ReadLines(START, lines)
    {
      assert lines[i..][1..] == lines[i + 1..];
      var stripped := Strip(lines[i]);
      var line := Trim(stripped);
      if line == "" {
        continue;
      }
      var err := p.Line(line);
      if err.Some? {
        return Err(BadLine(err.value));
      }
    }
    var ok := p.ResolveRules();
    if !ok {
      return Err(UnresolvedName);
    }
    if !Validation.ValidSchema(p.schema) {
      return Err(InvalidSchema);
    }
    r := Ok(p.schema);
  }
}

/**
 * What well-formed lines of the schema language are read as: printing a
 * declaration and parsing the line gives the declaration back
 * (core/reach/parse.go:54-232; core/reach/schema.go:60-75).
 */
module SchemaLines {
  import opened Wrappers
  import opened Schemas
  import opened Text
  import opened RuleText
  import opened Spines
  import opened SchemaText


  // ---- Comments ----

  /** Nothing in the text ends the line or starts a comment, wherever the text is placed. */
  predicate Clean(s: string) {
    forall i :: 0 <= i < |s| ==> CleanAt(s, i)
  }

  predicate CleanAt(s: string, i: nat)
    requires i < |s|
  {
    s[i] != '/' && s[i] != '\n' && (s[i] == '#' ==> i > 0 && s[i - 1] != ' ' && s[i - 1] != '\t')
  }

  lemma {:induction false} NoSlashes(s: string)
    requires forall i :: 0 <= i < |s| ==> s[i] != '/'
    ensures BeforeSlashes(s) == s
  {
    if s != "" {
      NoSlashes(s[1..]);
      assert s == [s[0]] + s[1..];
    }
  }

  lemma {:induction false} NoHash(s: string, i: nat)
    requires Clean(s) && i <= |s|
    ensures HashAt(s, i) == |s|
    decreases |s| - i
  {
    if i < |s| {
      assert CleanAt(s, i) && !StartsComment(s, i);
      NoHash(s, i + 1);
    }
  }

  lemma CleanStays(s: string)
    requires Clean(s)
    ensures StripComment(s) == s
  {
    forall i | 0 <= i < |s| ensures s[i] != '/' {
      assert CleanAt(s, i);
    }
    NoSlashes(s);
    NoHash(s, 0);
  }

  lemma CleanConcat(a: string, b: string)
    requires Clean(a) && Clean(b)
    ensures Clean(a + b)
  {
    var s := a + b;
    forall i | 0 <= i < |s| ensures CleanAt(s, i) {
      if i < |a| {
        assert CleanAt(a, i) && s[i] == a[i];
        assert i > 0 ==> s[i - 1] == a[i - 1];
      } else {
        assert CleanAt(b, i - |a|) && s[i] == b[i - |a|];
        assert i > |a| ==> s[i - 1] == b[i - |a| - 1];
      }
    }
  }

  lemma IdentIsClean(s: string)
    requires ValidIdent(s)
    ensures Clean(s) && Plain(s) && ' ' !in s && ',' !in s && ':' !in s && '=' !in s && '|' !in s && '#' !in s && '-' !in s && '\n' !in s
  {
  }

  // ---- Cutting ----

  lemma {:induction false} CutAt(a: string, c: char, b: string)
    requires c !in a
    ensures Cut(a + [c] + b, c) == Halves(a, b, true)
    decreases |a|
  {
    var s := a + [c] + b;
    if a == "" {
      assert s[0] == c && s[1..] == b;
    } else {
      assert s[0] == a[0] && a[0] in a && s[1..] == a[1..] + [c] + b;
      CutAt(a[1..], c, b);
      assert [a[0]] + a[1..] == a;
    }
  }

  lemma {:induction false} CutNone(a: string, c: char)
    requires c !in a
    ensures Cut(a, c) == Halves(a, "", false)
    decreases |a|
  {
    if a != "" {
      assert a[0] in a;
      CutNone(a[1..], c);
      assert [a[0]] + a[1..] == a;
    }
  }

  lemma SplitOnAt(a: string, c: char, b: string)
    requires c !in a
    ensures SplitOn(a + [c] + b, c) == [a] + SplitOn(b, c)
  {
    CutAt(a, c, b);
  }

  lemma SplitOnNone(a: string, c: char)
    requires c !in a
    ensures SplitOn(a, c) == [a]
  {
    CutNone(a, c);
  }

  lemma ItemsCons(part: string, item: string, parts: seq<string>)
    requires Trim(part) == item && item != ""
    ensures Items([part] + parts) == [item] + Items(parts)
  {
    assert ([part] + parts)[1..] == parts;
  }

  // ---- Lines and whole texts ----

  /** The text of some lines, each ended by a newline. */
  function Unlines(lines: seq<string>): string {
    if lines == [] then "" else lines[0] + ['\n'] + Unlines(lines[1..])
  }

  lemma {:induction false} UnlinesAppend(a: seq<string>, b: seq<string>)
    ensures Unlines(a + b) == Unlines(a) + Unlines(b)
    decreases |a|
  {
    if a == [] {
      assert a + b == b;
    } else {
      assert (a + b)[1..] == a[1..] + b;
      UnlinesAppend(a[1..], b);
      assert a[0] + ['\n'] + (Unlines(a[1..]) + Unlines(b)) == a[0] + ['\n'] + Unlines(a[1..]) + Unlines(b);
    }
  }

  /** Splitting at newlines gives the lines back, and one empty line more. */
  lemma {:induction false} UnlinesSplit(lines: seq<string>)
    requires forall line :: line in lines ==> '\n' !in line
    ensures SplitOn(Unlines(lines), '\n') == lines + [""]
    decreases |lines|
  {
    if lines == [] {
      assert lines + [""] == [""];
    } else {
      assert lines[0] in lines;
      SplitOnAt(lines[0], '\n', Unlines(lines[1..]));
      assert forall line :: line in lines[1..] ==> line in lines;
      UnlinesSplit(lines[1..]);
      assert [lines[0]] + (lines[1..] + [""]) == lines + [""];
    }
  }

  /** One line leads from one state to the other. */
  ghost predicate Step(st: ParserState, raw: string, next: ParserState) {
    && st.Sound() && '\n' !in raw
    && var line := Trim(StripComment(raw));
       if line == "" then next == st else ReadLine(st, line) == Ok(next)
  }

  ghost predicate Trace(states: seq<ParserState>, lines: seq<string>) {
    && |states| == |lines| + 1
    && forall i :: 0 <= i < |lines| ==> StepAt(states, lines, i)
  }

  ghost predicate StepAt(states: seq<ParserState>, lines: seq<string>, i: nat)
    requires |states| == |lines| + 1 && i < |lines|
  {
    Step(states[i], lines[i], states[i + 1])
  }

  /** The lines lead from one state to the other. */
  ghost predicate Leads(st: ParserState, lines: seq<string>, next: ParserState) {
    exists states :: Trace(states, lines) && states[0] == st && states[|lines|] == next
  }

  lemma LeadsNowhere(st: ParserState)
    ensures Leads(st, [], st)
  {
    assert Trace([st], []);
  }

  lemma JoinedStep(s: seq<ParserState>, a: seq<string>, t: seq<ParserState>, b: seq<string>, i: nat)
    requires Trace(s, a) && Trace(t, b) && s[|a|] == t[0] && i < |a| + |b|
    ensures StepAt(s + t[1..], a + b, i)
  {
    if i < |a| {
      assert StepAt(s, a, i);
    } else {
      assert StepAt(t, b, i - |a|);
    }
  }

  lemma LeadsOn(st: ParserState, a: seq<string>, mid: ParserState, b: seq<string>, next: ParserState)
    requires Leads(st, a, mid) && Leads(mid, b, next)
    ensures Leads(st, a + b, next)
  {
    var s :| Trace(s, a) && s[0] == st && s[|a|] == mid;
    var t :| Trace(t, b) && t[0] == mid && t[|b|] == next;
    var all := s + t[1..];
    forall i | 0 <= i < |a + b| ensures StepAt(all, a + b, i) {
      JoinedStep(s, a, t, b, i);
    }
    assert Trace(all, a + b);
  }

  lemma {:induction false} TraceReads(states: seq<ParserState>, lines: seq<string>)
    requires Trace(states, lines) && states[0].Sound()
    ensures ReadLines(states[0], lines) == Ok(states[|lines|])
    decreases |lines|
  {
    if lines != [] {
      assert StepAt(states, lines, 0);
      forall i | 0 <= i < |lines[1..]| ensures StepAt(states[1..], lines[1..], i) {
        assert StepAt(states, lines, i + 1);
      }
      TraceReads(states[1..], lines[1..]);
    }
  }

  /** Lines that lead somewhere hold no newline and are read that way. */
  lemma LeadsReads(st: ParserState, lines: seq<string>, next: ParserState)
    requires Leads(st, lines, next) && st.Sound()
    ensures ReadLines(st, lines) == Ok(next)
    ensures forall line :: line in lines ==> '\n' !in line
  {
    var states :| Trace(states, lines) && states[0] == st && states[|lines|] == next;
    TraceReads(states, lines);
    forall line | line in lines ensures '\n' !in line {
      var i :| 0 <= i < |lines| && lines[i] == line;
      assert StepAt(states, lines, i);
    }
  }

  lemma StepLeads(st: ParserState, raw: string, next: ParserState)
    requires Step(st, raw, next)
    ensures Leads(st, [raw], next)
  {
    assert Trace([st, next], [raw]);
  }

  lemma BlankLine(st: ParserState)
    requires st.Sound()
    ensures Leads(st, [""], st)
  {
    StepLeads(st, "", st);
  }

  lemma Stripped(pad: string, line: string)
    requires Blank(pad) && Clean(pad) && Trimmed(line) && Clean(line)
    ensures Trim(StripComment(pad + line)) == line && '\n' !in pad + line
  {
    forall i | 0 <= i < |pad + line| ensures (pad + line)[i] != '\n' {
      assert Clean(pad + line) by { CleanConcat(pad, line); }
      assert CleanAt(pad + line, i);
    }
    CleanConcat(pad, line);
    CleanStays(pad + line);
    TrimPadded(pad, line, "");
    assert pad + line + "" == pad + line;
  }

  lemma OneLine(st: ParserState, raw: string, line: string, next: ParserState)
    requires st.Sound() && Trim(StripComment(raw)) == line != "" && '\n' !in raw
    requires ReadLine(st, line) == Ok(next)
    ensures Leads(st, [raw], next)
  {
    StepLeads(st, raw, next);
  }

  /** A line: indentation, a keyword and the rest. */
  function LineText(pad: string, word: string, rest: string): string {
    pad + (word + [' '] + rest)
  }

  /** A clean line of a keyword and the rest, indented or not, is read by its keyword. */
  lemma LineRead(st: ParserState, pad: string, word: string, rest: string, next: ParserState)
    requires st.Sound() && Blank(pad) && Clean(pad)
    requires ValidIdent(word) && Trimmed(rest) && Clean(rest)
    requires ReadLine(st, word + [' '] + rest) == Ok(next)
    ensures Leads(st, [LineText(pad, word, rest)], next)
  {
    var line := word + [' '] + rest;
    IdentIsClean(word);
    CleanConcat(word, [' ']);
    CleanConcat(word + [' '], rest);
    assert line[0] == word[0] && line[|line| - 1] == rest[|rest| - 1];
    Stripped(pad, line);
    OneLine(st, pad + line, line, next);
  }

  /** How a keyword and the rest of a line are told apart. */
  lemma KeywordCut(word: string, rest: string)
    requires ValidIdent(word) && Trimmed(rest)
    ensures Cut(word + [' '] + rest, ' ') == Halves(word, rest, true) && Trim(rest) == rest
  {
    IdentIsClean(word);
    CutAt(word, ' ', rest);
    TrimOfTrimmed(rest);
  }

  lemma KeywordsAreIdents()
    ensures ValidIdent("namespace") && ValidIdent("action") && ValidIdent("type") && ValidIdent("relation") && ValidIdent("rule")
  {
  }

  lemma RelationKeyword(st: ParserState, rest: string)
    requires st.Sound() && Trimmed(rest)
    ensures ReadLine(st, "relation" + [' '] + rest)
         == if ArrowAt(rest) < |rest| then TypeRelation(st, rest) else NamespaceRelation(st, rest)
  {
    KeywordsAreIdents();
    KeywordCut("relation", rest);
  }

  lemma RuleKeyword(st: ParserState, rest: string)
    requires st.Sound() && Trimmed(rest)
    ensures ReadLine(st, "rule" + [' '] + rest) == ReadRule(st, rest)
  {
    KeywordsAreIdents();
    KeywordCut("rule", rest);
  }

  // ---- Each kind of line ----

  lemma TypeRead(st: ParserState, name: string)
    requires st.Sound() && ValidIdent(name) && name !in st.schema.types
    ensures Leads(st, [LineText("", "type", name)],
                  ParserState(st.schema.(types := st.schema.types[name := TypeDef(name, map[], map[])]), Some(name)))
  {
    KeywordsAreIdents();
    IdentIsClean(name);
    KeywordCut("type", name);
    LineRead(st, "", "type", name, OpenType(st, name).value);
  }

  function JoinText(parts: seq<string>, sep: string): string {
    if parts == [] then ""
    else if |parts| == 1 then parts[0]
    else parts[0] + sep + JoinText(parts[1..], sep)
  }

  lemma {:induction false} JoinShape(parts: seq<string>, sep: string)
    requires parts != [] && Clean(sep)
    requires forall p :: p in parts ==> Trimmed(p) && Clean(p)
    ensures Trimmed(JoinText(parts, sep)) && Clean(JoinText(parts, sep))
    decreases |parts|
  {
    assert parts[0] in parts;
    if |parts| > 1 {
      assert forall p :: p in parts[1..] ==> p in parts;
      JoinShape(parts[1..], sep);
      CleanConcat(parts[0], sep);
      CleanConcat(parts[0] + sep, JoinText(parts[1..], sep));
    }
  }

  /** The items of names joined by a separator and blanks around it are those names. */
  lemma {:induction false} JoinedItems(parts: seq<string>, left: string, c: char)
    requires parts != [] && Blank(left) && c !in left && c != ' '
    requires forall p :: p in parts ==> Trimmed(p) && c !in p
    ensures Items(SplitOn(" " + JoinText(parts, left + [c] + " "), c)) == parts
    decreases |parts|
  {
    var sep := left + [c] + " ";
    assert parts[0] in parts;
    if |parts| == 1 {
      var part := " " + parts[0];
      SplitOnNone(part, c);
      TrimPadded(" ", parts[0], "");
      assert part + "" == part;
      ItemsCons(part, parts[0], []);
      assert [part] + [] == [part];
    } else {
      var part, rest := " " + parts[0] + left, " " + JoinText(parts[1..], sep);
      assert " " + JoinText(parts, sep) == part + [c] + rest;
      SplitOnAt(part, c, rest);
      TrimPadded(" ", parts[0], left);
      assert forall p :: p in parts[1..] ==> p in parts;
      JoinedItems(parts[1..], left, c);
      ItemsCons(part, parts[0], SplitOn(rest, c));
      assert [parts[0]] + parts[1..] == parts;
    }
  }

  /** A blank before the text only pads its first part. */
  lemma ItemsAfterBlank(s: string, c: char)
    requires c != ' '
    ensures Items(SplitOn(" " + s, c)) == Items(SplitOn(s, c))
  {
    var h := Cut(s, c);
    assert (" " + s)[0] == ' ' && (" " + s)[1..] == s;
    assert Cut(" " + s, c) == h.(before := [' '] + h.before);
    var first := if h.found then h.before else s;
    TrimLeftPads(" ", first);
    var rest := if h.found then SplitOn(h.after, c) else [];
    assert SplitOn(s, c) == [first] + rest && SplitOn(" " + s, c) == [" " + first] + rest;
    assert ([first] + rest)[1..] == rest && ([" " + first] + rest)[1..] == rest;
  }

  lemma ActionsRead(st: ParserState, actions: seq<string>)
    requires st.Sound() && actions != [] && forall a :: a in actions ==> ValidIdent(a)
    ensures Leads(st, [LineText("", "action", JoinText(actions, ", "))],
                  ParserState(st.schema.(actions := st.schema.actions + actions), None))
  {
    var rest := JoinText(actions, ", ");
    KeywordsAreIdents();
    forall a | a in actions ensures Trimmed(a) && Clean(a) && ',' !in a {
      IdentIsClean(a);
    }
    JoinShape(actions, ", ");
    assert "" + [','] + " " == ", ";
    JoinedItems(actions, "", ',');
    ItemsAfterBlank(rest, ',');
    KeywordCut("action", rest);
    LineRead(st, "", "action", rest, ParserState(st.schema.(actions := st.schema.actions + actions), None));
  }

  /** A namespace relation: the name, padded, and its modifiers. */
  function DeclarationText(name: string, pad: string, mods: string): string {
    (name + pad) + [':'] + (" " + mods)
  }

  lemma DeclarationRead(st: ParserState, name: string, pad: string, mods: string, def: RelationDef)
    requires st.Sound() && ValidIdent(name) && name !in st.schema.relations
    requires Blank(pad) && Clean(pad) && ':' !in pad && '-' !in pad
    requires Trimmed(mods) && Clean(mods) && '-' !in mods
    requires ModifyAll(RelationDef(name, false, WildcardNone), Items(SplitOn(" " + mods, ','))) == Ok(def)
    ensures Leads(st, [LineText("", "relation", DeclarationText(name, pad, mods))],
                  st.(schema := st.schema.(relations := st.schema.relations[name := def])))
  {
    var rest := DeclarationText(name, pad, mods);
    DeclarationCut(name, pad, mods);
    DeclarationShape(name, pad, mods);
    RelationKeyword(st, rest);
    KeywordsAreIdents();
    LineRead(st, "", "relation", rest, NamespaceRelation(st, rest).value);
  }

  lemma DeclarationShape(name: string, pad: string, mods: string)
    requires ValidIdent(name) && Clean(pad) && Trimmed(mods) && Clean(mods)
    ensures Trimmed(DeclarationText(name, pad, mods)) && Clean(DeclarationText(name, pad, mods))
  {
    IdentIsClean(name);
    CleanConcat(name, pad);
    CleanConcat(name + pad, [':']);
    CleanConcat(" ", mods);
    CleanConcat((name + pad) + [':'], " " + mods);
  }

  lemma DeclarationCut(name: string, pad: string, mods: string)
    requires ValidIdent(name) && Blank(pad) && ':' !in pad && '-' !in pad && '-' !in mods
    ensures var rest := DeclarationText(name, pad, mods);
            ArrowAt(rest) == |rest| && Cut(rest, ':') == Halves(name + pad, " " + mods, true) && Trim(name + pad) == name
  {
    var rest := DeclarationText(name, pad, mods);
    IdentIsClean(name);
    CutAt(name + pad, ':', " " + mods);
    TrimPadded("", name, pad);
    assert "" + name + pad == name + pad;
    forall i | 0 <= i < |rest| ensures rest[i] != '-' {
    }
  }

  // ---- Targets ----

  function PrintTarget(spec: TargetSpec): string {
    if spec.relation == "" then spec.typ else spec.typ + "#" + spec.relation
  }

  function PrintedTargets(specs: seq<TargetSpec>): (texts: seq<string>)
    ensures |texts| == |specs|
  {
    if specs == [] then [] else [PrintTarget(specs[0])] + PrintedTargets(specs[1..])
  }

  function PrintTargets(specs: seq<TargetSpec>): string {
    JoinText(PrintedTargets(specs), " | ")
  }

  predicate NamedTarget(spec: TargetSpec) {
    ValidIdent(spec.typ) && (spec.relation == "" || ValidIdent(spec.relation))
  }

  lemma TargetText(spec: TargetSpec)
    requires NamedTarget(spec)
    ensures Trimmed(PrintTarget(spec)) && Clean(PrintTarget(spec)) && '|' !in PrintTarget(spec) && '\n' !in PrintTarget(spec)
    ensures ReadTarget(PrintTarget(spec)) == spec
  {
    IdentIsClean(spec.typ);
    TrimOfTrimmed(spec.typ);
    if spec.relation == "" {
      CutNone(spec.typ, '#');
    } else {
      IdentIsClean(spec.relation);
      TrimOfTrimmed(spec.relation);
      CutAt(spec.typ, '#', spec.relation);
      HashedIsClean(spec.typ, spec.relation);
    }
  }

  lemma HashedIsClean(typ: string, rel: string)
    requires ValidIdent(typ) && ValidIdent(rel)
    ensures Clean(typ + "#" + rel)
  {
    var s := typ + "#" + rel;
    assert s[|typ|] == '#' && s[|typ| - 1] == typ[|typ| - 1];
    forall i | 0 <= i < |s| && i != |typ| ensures IdentChar(s[i], false) {
      if i < |typ| {
        assert s[i] == typ[i];
      } else {
        assert s[i] == rel[i - |typ| - 1];
      }
    }
  }

  lemma {:induction false} TargetTexts(specs: seq<TargetSpec>)
    requires forall spec :: spec in specs ==> NamedTarget(spec)
    ensures ReadTargets(PrintedTargets(specs)) == specs
    ensures forall p :: p in PrintedTargets(specs) ==> Trimmed(p) && Clean(p) && '|' !in p && '\n' !in p
    decreases |specs|
  {
    if specs != [] {
      assert specs[0] in specs;
      TargetText(specs[0]);
      assert forall spec :: spec in specs[1..] ==> spec in specs;
      TargetTexts(specs[1..]);
      assert PrintedTargets(specs)[1..] == PrintedTargets(specs[1..]);
    }
  }

  /** Targets printed and read are the same targets, usersets included. */
  lemma TargetsRoundTrip(specs: seq<TargetSpec>)
    requires specs != [] && forall spec :: spec in specs ==> NamedTarget(spec)
    ensures ReadTargets(Items(SplitOn(" " + PrintTargets(specs), '|'))) == specs
    ensures Trimmed(PrintTargets(specs)) && Clean(PrintTargets(specs))
  {
    TargetTexts(specs);
    JoinShape(PrintedTargets(specs), " | ");
    assert " " + ['|'] + " " == " | ";
    JoinedItems(PrintedTargets(specs), " ", '|');
  }

  /** A relation of the open type: its name and targets. */
  function RelationText(name: string, targets: string): string {
    (name + " ") + "->" + (" " + targets)
  }

  lemma ReadRelationText(st: ParserState, name: string, specs: seq<TargetSpec>)
    requires st.Sound() && st.current.Some? && ValidIdent(name) && name !in st.Block().relations
    requires specs != [] && forall spec :: spec in specs ==> NamedTarget(spec)
    ensures ArrowAt(RelationText(name, PrintTargets(specs))) < |RelationText(name, PrintTargets(specs))|
    ensures TypeRelation(st, RelationText(name, PrintTargets(specs)))
         == Ok(st.WithBlock(st.Block().(relations := st.Block().relations[name := specs])))
  {
    TargetsRoundTrip(specs);
    RelationCut(name, PrintTargets(specs));
  }

  lemma RelationLineRead(st: ParserState, name: string, targets: string, next: ParserState)
    requires st.Sound() && ValidIdent(name) && Trimmed(targets) && Clean(targets)
    requires ArrowAt(RelationText(name, targets)) < |RelationText(name, targets)|
    requires TypeRelation(st, RelationText(name, targets)) == Ok(next)
    ensures Leads(st, [LineText("  ", "relation", RelationText(name, targets))], next)
  {
    RelationShape(name, targets);
    RelationKeyword(st, RelationText(name, targets));
    KeywordsAreIdents();
    LineRead(st, "  ", "relation", RelationText(name, targets), next);
  }

  lemma TypeRelationRead(st: ParserState, name: string, specs: seq<TargetSpec>)
    requires st.Sound() && st.current.Some? && ValidIdent(name) && name !in st.Block().relations
    requires specs != [] && forall spec :: spec in specs ==> NamedTarget(spec)
    ensures Leads(st, [LineText("  ", "relation", RelationText(name, PrintTargets(specs)))],
                  st.WithBlock(st.Block().(relations := st.Block().relations[name := specs])))
  {
    var next := st.WithBlock(st.Block().(relations := st.Block().relations[name := specs]));
    TargetsRoundTrip(specs);
    ReadRelationText(st, name, specs);
    RelationLineRead(st, name, PrintTargets(specs), next);
  }

  lemma RelationShape(name: string, targets: string)
    requires ValidIdent(name) && Trimmed(targets) && Clean(targets)
    ensures Trimmed(RelationText(name, targets)) && Clean(RelationText(name, targets))
  {
    IdentIsClean(name);
    CleanConcat(name, " ");
    CleanConcat(name + " ", "->");
    CleanConcat(" ", targets);
    CleanConcat((name + " ") + "->", " " + targets);
  }

  lemma RelationCut(name: string, targets: string)
    requires ValidIdent(name)
    ensures var rest := RelationText(name, targets);
            ArrowAt(rest) == |name| + 1 < |rest| && Trim(rest[..|name| + 1]) == name && rest[|name| + 3..] == " " + targets
  {
    var rest := RelationText(name, targets);
    IdentIsClean(name);
    ArrowAtFirst(name + " ", " " + targets);
    assert rest[..|name| + 1] == "" + name + " ";
    TrimPadded("", name, " ");
  }

  // ---- Rules ----

  function RuleAsText(action: string, body: string): string {
    (action + " ") + ['='] + (" " + body)
  }

  lemma ReadRuleText(st: ParserState, action: string, body: string, raw: Expr)
    requires st.Sound() && st.current.Some? && ValidIdent(action) && action !in st.Block().rules
    requires RuleText.Parse(" " + body) == Ok(raw)
    ensures ReadRule(st, RuleAsText(action, body)) == Ok(st.WithBlock(st.Block().(rules := st.Block().rules[action := raw])))
  {
    IdentIsClean(action);
    CutAt(action + " ", '=', " " + body);
    assert action + " " == "" + action + " ";
    TrimPadded("", action, " ");
  }

  lemma RuleRead(st: ParserState, action: string, body: string, raw: Expr)
    requires st.Sound() && st.current.Some? && ValidIdent(action) && action !in st.Block().rules
    requires Trimmed(body) && Clean(body) && RuleText.Parse(" " + body) == Ok(raw)
    ensures Leads(st, [LineText("  ", "rule", RuleAsText(action, body))],
                  st.WithBlock(st.Block().(rules := st.Block().rules[action := raw])))
  {
    var rest := RuleAsText(action, body);
    var next := st.WithBlock(st.Block().(rules := st.Block().rules[action := raw]));
    ReadRuleText(st, action, body, raw);
    RuleShape(action, body);
    RuleKeyword(st, rest);
    KeywordsAreIdents();
    LineRead(st, "  ", "rule", rest, next);
  }

  lemma RuleShape(action: string, body: string)
    requires ValidIdent(action) && Trimmed(body) && Clean(body)
    ensures Trimmed(RuleAsText(action, body)) && Clean(RuleAsText(action, body))
  {
    IdentIsClean(action);
    CleanConcat(action, " ");
    CleanConcat(action + " ", ['=']);
    CleanConcat(" ", body);
    CleanConcat((action + " ") + ['='], " " + body);
  }
}

/**
 * Relation declarations: every definition, printed with the words of its flag and
 * its star positions, is read back as itself, and no other words are read
 * (core/reach/parse.go:130-183; core/reach/schema.go:36-47).
 */
module RelationLines {
  import opened Wrappers
  import opened Schemas
  import opened Text
  import opened RuleText
  import opened SchemaText
  import opened SchemaLines

  /** The word of a star position. */
  function PositionWord(w: WildcardPos): string {
    match w
    case WildcardNone => "none"
    case WildcardSubject => "subject"
    case WildcardObject => "object"
    case WildcardBoth => "both"
  }

  function FlagWord(transitive: bool): string {
    if transitive then "transitive" else "direct"
  }

  function PositionText(w: WildcardPos): string {
    "wildcard" + [' '] + PositionWord(w)
  }

  /** The modifiers of a definition. */
  function DefinitionText(def: RelationDef): string {
    FlagWord(def.transitive) + ", " + PositionText(def.wildcard)
  }

  lemma OneModifier(def: RelationDef, mod: string, next: RelationDef)
    requires Trimmed(mod) && ',' !in mod && Modify(def, mod) == Ok(next)
    ensures ModifyAll(def, Items(SplitOn(" " + mod, ','))) == Ok(next)
  {
    var part := " " + mod;
    SplitOnNone(part, ',');
    TrimPadded(" ", mod, "");
    assert part + "" == part && [part] + [] == [part];
    ItemsCons(part, mod, []);
    assert [mod][1..] == [];
  }

  lemma TwoModifiers(def: RelationDef, first: string, second: string, mid: RelationDef, next: RelationDef)
    requires Trimmed(first) && ',' !in first && Modify(def, first) == Ok(mid)
    requires Trimmed(second) && ',' !in second && Modify(mid, second) == Ok(next)
    ensures ModifyAll(def, Items(SplitOn(" " + (first + ", " + second), ','))) == Ok(next)
  {
    var part, rest := " " + first, " " + second;
    assert " " + (first + ", " + second) == part + [','] + rest;
    SplitOnAt(part, ',', rest);
    TrimPadded(" ", first, "");
    assert part + "" == part;
    ItemsCons(part, first, SplitOn(rest, ','));
    OneModifier(mid, second, next);
    assert ([first] + Items(SplitOn(rest, ',')))[1..] == Items(SplitOn(rest, ','));
  }

  lemma FlagModifier(def: RelationDef, transitive: bool)
    ensures Modify(def, FlagWord(transitive)) == Ok(def.(transitive := transitive))
  {
    CutNone(FlagWord(transitive), ' ');
    assert "direct"[0] == 'd' && "transitive"[0] == 't';
  }

  lemma PositionModifier(def: RelationDef, w: WildcardPos)
    ensures Modify(def, PositionText(w)) == Ok(def.(wildcard := w))
  {
    var word := PositionWord(w);
    CutAt("wildcard", ' ', word);
    TrimOfTrimmed(word);
    PositionIsRead(w);
    assert "direct"[0] == 'd' && "transitive"[0] == 't' && "wildcard"[0] == 'w';
  }

  lemma PositionIsRead(w: WildcardPos)
    ensures ParseWildcard(PositionWord(w)) == Ok(w)
  {
    assert "none"[0] == 'n' && "subject"[0] == 's' && "object"[0] == 'o' && "both"[0] == 'b';
  }

  lemma WordsAreIdents(transitive: bool, w: WildcardPos)
    ensures ValidIdent(FlagWord(transitive)) && ValidIdent(PositionWord(w)) && ValidIdent("wildcard")
  {
  }

  /** Two identifiers with a blank between them. */
  lemma TwoIdentsShape(a: string, b: string)
    requires ValidIdent(a) && ValidIdent(b)
    ensures var text := a + [' '] + b; Trimmed(text) && ',' !in text && '-' !in text && Clean(text)
  {
    IdentIsClean(a);
    IdentIsClean(b);
    CleanConcat(a, [' ']);
    CleanConcat(a + [' '], b);
    assert (a + [' '] + b)[0] == a[0];
  }

  lemma WordShapes(transitive: bool, w: WildcardPos)
    ensures Trimmed(FlagWord(transitive)) && ',' !in FlagWord(transitive) && '-' !in FlagWord(transitive) && Clean(FlagWord(transitive))
    ensures Trimmed(PositionText(w)) && ',' !in PositionText(w) && '-' !in PositionText(w) && Clean(PositionText(w))
  {
    WordsAreIdents(transitive, w);
    IdentIsClean(FlagWord(transitive));
    TwoIdentsShape("wildcard", PositionWord(w));
  }

  lemma DefinitionShape(def: RelationDef)
    ensures Trimmed(DefinitionText(def)) && Clean(DefinitionText(def)) && '-' !in DefinitionText(def)
  {
    WordShapes(def.transitive, def.wildcard);
    CleanConcat(FlagWord(def.transitive), ", ");
    CleanConcat(FlagWord(def.transitive) + ", ", PositionText(def.wildcard));
  }

  /** Every definition, all flags and star positions, is read back from its line as itself. */
  lemma DefinitionRoundTrip(st: ParserState, pad: string, def: RelationDef)
    requires st.Sound() && ValidIdent(def.name) && def.name !in st.schema.relations
    requires Blank(pad) && Clean(pad) && ':' !in pad && '-' !in pad
    ensures Leads(st, [LineText("", "relation", DeclarationText(def.name, pad, DefinitionText(def)))],
                  st.(schema := st.schema.(relations := st.schema.relations[def.name := def])))
  {
    var plain := RelationDef(def.name, false, WildcardNone);
    var mid := plain.(transitive := def.transitive);
    WordShapes(def.transitive, def.wildcard);
    FlagModifier(plain, def.transitive);
    PositionModifier(mid, def.wildcard);
    TwoModifiers(plain, FlagWord(def.transitive), PositionText(def.wildcard), mid, def);
    DefinitionShape(def);
    DeclarationRead(st, def.name, pad, DefinitionText(def), def);
  }

  /** With the flag alone the relation admits no stars. */
  lemma FlagAloneRead(st: ParserState, pad: string, name: string, transitive: bool)
    requires st.Sound() && ValidIdent(name) && name !in st.schema.relations
    requires Blank(pad) && Clean(pad) && ':' !in pad && '-' !in pad
    ensures Leads(st, [LineText("", "relation", DeclarationText(name, pad, FlagWord(transitive)))],
                  st.(schema := st.schema.(relations := st.schema.relations[name := RelationDef(name, transitive, WildcardNone)])))
  {
    var plain := RelationDef(name, false, WildcardNone);
    WordShapes(transitive, WildcardNone);
    FlagModifier(plain, transitive);
    OneModifier(plain, FlagWord(transitive), plain.(transitive := transitive));
    DeclarationRead(st, name, pad, FlagWord(transitive), plain.(transitive := transitive));
  }

  /** The word before the first blank is a flag, or `wildcard` before a position word or nothing. */
  predicate Recognised(mod: string) {
    var h := Cut(mod, ' ');
    || h.before == "direct" || h.before == "transitive"
    || (h.before == "wildcard" && Trim(h.after) in ["", "none", "subject", "object", "both"])
  }

  /** A declaration is read exactly when each of its modifiers is one of those words. */
  lemma {:induction false} OnlyTheseWords(def: RelationDef, mods: seq<string>)
    ensures ModifyAll(def, mods).Ok? <==> forall mod :: mod in mods ==> Recognised(mod)
    ensures ModifyAll(def, mods).Ok? ==> ModifyAll(def, mods).value.name == def.name
    decreases |mods|
  {
    if mods != [] {
      var next := Modify(def, mods[0]);
      assert next.Ok? <==> Recognised(mods[0]);
      if next.Ok? {
        OnlyTheseWords(next.value, mods[1..]);
      }
      assert forall mod :: mod in mods <==> mod == mods[0] || mod in mods[1..];
    }
  }

  /** So a namespace relation is refused exactly when it has no name, is there already, or has another word among its modifiers. */
  lemma RelationRefusedIff(st: ParserState, rest: string)
    ensures var h := Cut(rest, ':');
            NamespaceRelation(st, rest).Err? <==>
              || Trim(h.before) == "" || Trim(h.before) in st.schema.relations
              || (h.found && exists mod :: mod in Items(SplitOn(h.after, ',')) && !Recognised(mod))
  {
    var h := Cut(rest, ':');
    OnlyTheseWords(RelationDef(Trim(h.before), false, WildcardNone), if h.found then Items(SplitOn(h.after, ',')) else []);
  }

  // ---- Declarations one after the other ----

  function Blanks(n: nat): string {
    if n == 0 then "" else [' '] + Blanks(n - 1)
  }

  lemma {:induction false} BlanksArePadding(n: nat)
    ensures Blank(Blanks(n)) && Clean(Blanks(n)) && ':' !in Blanks(n) && '-' !in Blanks(n)
  {
    if n > 0 {
      BlanksArePadding(n - 1);
      CleanConcat([' '], Blanks(n - 1));
    }
  }

  /** A definition and the number of blanks before its colon; star positions are left out of the text when there are none. */
  datatype Declaration = Declaration(def: RelationDef, blanks: nat) {
    function Line(): string {
      var mods := if def.wildcard.WildcardNone? then FlagWord(def.transitive) else DefinitionText(def);
      LineText("", "relation", DeclarationText(def.name, Blanks(blanks), mods))
    }
  }

  function LinesFor(ds: seq<Declaration>): seq<string> {
    if ds == [] then [] else [ds[0].Line()] + LinesFor(ds[1..])
  }

  predicate NamesApart(ds: seq<Declaration>) {
    forall i, j :: 0 <= i < j < |ds| ==> ds[i].def.name != ds[j].def.name
  }

  /** The relations with exactly these definitions more. */
  ghost predicate Defines(before: map<string, RelationDef>, ds: seq<Declaration>, after: map<string, RelationDef>) {
    && after.Keys == before.Keys + (set d | d in ds :: d.def.name)
    && (forall d :: d in ds ==> after[d.def.name] == d.def)
    && (forall name :: name in before && (forall d :: d in ds ==> d.def.name != name) ==> after[name] == before[name])
  }

  lemma DefinesOn(before: map<string, RelationDef>, ds: seq<Declaration>, after: map<string, RelationDef>)
    requires ds != [] && (forall d :: d in ds[1..] ==> d.def.name != ds[0].def.name)
    requires Defines(before[ds[0].def.name := ds[0].def], ds[1..], after)
    ensures Defines(before, ds, after)
  {
    assert forall d :: d in ds <==> d == ds[0] || d in ds[1..];
  }

  lemma RestApart(ds: seq<Declaration>)
    requires ds != [] && NamesApart(ds)
    ensures NamesApart(ds[1..]) && forall d :: d in ds[1..] ==> d in ds && d.def.name != ds[0].def.name
  {
    forall d | d in ds[1..] ensures d in ds && d.def.name != ds[0].def.name {
      var j :| 1 <= j < |ds| && ds[j] == d;
    }
  }

  /** Declarations of different names are read as exactly their definitions, in whatever order. */
  lemma {:induction false} DeclarationsDefine(st: ParserState, ds: seq<Declaration>) returns (after: map<string, RelationDef>)
    requires st.Sound() && NamesApart(ds)
    requires forall d :: d in ds ==> ValidIdent(d.def.name) && d.def.name !in st.schema.relations
    ensures Leads(st, LinesFor(ds), st.(schema := st.schema.(relations := after)))
    ensures Defines(st.schema.relations, ds, after)
    decreases |ds|
  {
    if ds == [] {
      after := st.schema.relations;
      LeadsNowhere(st);
    } else {
      var d := ds[0];
      var mid := st.schema.relations[d.def.name := d.def];
      var next := st.(schema := st.schema.(relations := mid));
      DeclarationDefines(st, d);
      RestApart(ds);
      after := DeclarationsDefine(next, ds[1..]);
      DefinesOn(st.schema.relations, ds, after);
      LeadsOn(st, [d.Line()], next, LinesFor(ds[1..]), next.(schema := next.schema.(relations := after)));
    }
  }

  lemma DeclarationDefines(st: ParserState, d: Declaration)
    requires st.Sound() && ValidIdent(d.def.name) && d.def.name !in st.schema.relations
    ensures Leads(st, [d.Line()], st.(schema := st.schema.(relations := st.schema.relations[d.def.name := d.def])))
  {
    BlanksArePadding(d.blanks);
    if d.def.wildcard.WildcardNone? {
      FlagAloneRead(st, Blanks(d.blanks), d.def.name, d.def.transitive);
    } else {
      DefinitionRoundTrip(st, Blanks(d.blanks), d.def);
    }
  }
}
