/**
 * The schema of one namespace and its closed rule grammar (core/reach/schema.go).
 */
module Schemas {

  datatype WildcardPos = WildcardNone | WildcardSubject | WildcardObject | WildcardBoth {
    predicate AllowsSubject() {
      WildcardSubject? || WildcardBoth?
    }

    predicate AllowsObject() {
      WildcardObject? || WildcardBoth?
    }
  }

  datatype RelationDef = RelationDef(name: string, transitive: bool, wildcard: WildcardPos)

  /** One legal far end of a relation; an empty relation means a plain node. */
  datatype TargetSpec = TargetSpec(typ: string, relation: string)

  /**
   * A rule body. IdentTerm is the parser's bare word: it is gone from every
   * resolved schema, and both the validator and the walk refuse it.
   */
  datatype Expr =
    | RelationTerm(relation: string)
    | RuleTerm(action: string)
    | ArrowTerm(relation: string, target: string)
    | Union(terms: seq<Expr>)
    | Intersect(terms: seq<Expr>)
    | Exclude(base: Expr, subtract: Expr)
    | IdentTerm(name: string)

  datatype TypeDef = TypeDef(name: string, relations: map<string, seq<TargetSpec>>, rules: map<string, Expr>)

  datatype Schema = Schema(
    namespace: string,
    actions: seq<string>,
    relations: map<string, RelationDef>,
    types: map<string, TypeDef>)
  {
    predicate HasAction(name: string) {
      name in actions
    }

    predicate HasRule(typ: string, action: string) {
      typ in types && action in types[typ].rules
    }

    function Rule(typ: string, action: string): Expr
      requires HasRule(typ, action)
    {
      types[typ].rules[action]
    }

    /** The actions a type answers; empty for an undeclared type. */
    function RuleNames(typ: string): set<string> {
      if typ in types then types[typ].rules.Keys else {}
    }
  }
}
