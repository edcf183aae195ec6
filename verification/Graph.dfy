/**
 * Nodes, usersets and edges: the whole data model of the engine
 * (core/reach/graph.go). Instants are integers; an edge without an expiry stands
 * for ever.
 */
module Graph {
  import opened Wrappers
  import Text

  const WILDCARD := "*"

  datatype NodeRef = NodeRef(typ: string, id: string) {
    predicate IsWildcard() {
      id == WILDCARD
    }

    /** True exactly when the source's Validate returns no error. */
    predicate Valid() {
      !Text.Blank(typ) && !Text.Blank(id) && typ != WILDCARD
    }

    function ToString(): string {
      typ + ":" + id
    }
  }

  /** The node that stands for every object of a type. */
  function Star(typ: string): NodeRef {
    NodeRef(typ, WILDCARD)
  }

  /** The far end of an edge: a plain node (empty relation) or a userset. */
  datatype SubjectRef = SubjectRef(node: NodeRef, relation: string) {
    predicate IsUserset() {
      relation != ""
    }
  }

  datatype Edge = Edge(obj: NodeRef, relation: string, subject: SubjectRef, expiresAt: Option<int>) {
    predicate Active(now: int) {
      expiresAt.None? || now < expiresAt.value
    }

    predicate Valid() {
      && obj.Valid()
      && !Text.Blank(relation)
      && subject.node.Valid()
      && !(subject.IsUserset() && subject.node.IsWildcard())
    }
  }

  /** An edge that stands for ever. */
  function Standing(obj: NodeRef, relation: string, subject: SubjectRef): Edge {
    Edge(obj, relation, subject, None)
  }

  /** One edge the walk crossed, without its expiry. */
  datatype Step = Step(obj: NodeRef, relation: string, subject: SubjectRef)

  function StepOf(edge: Edge): Step {
    Step(edge.obj, edge.relation, edge.subject)
  }
}
