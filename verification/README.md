# Relation-graph authorisation, modelled and proved

The project models the authorisation engine of `core/reach` in Dafny, together with the
components built on it or beside it: the merchant schema generator
(`internal/accessmodel`), role inheritance (`internal/service`) and the action workflow
interpreter (`core/automations`). It proves that the fast, stateful procedures agree with
simple declarative meanings.

The engine answers "may subject S do action A on resource R at instant t?" by a walk over
edges under a schema. The walk keeps a memo, breaks cycles, is bounded in depth, and
handles relations, rule references, arrows, unions, intersections, subtractions, star
nodes, usersets, transitive relations and expiring edges.

## How the files fit together

| files | subject |
|---|---|
| `Basics` | results, Go's string order, text helpers, text keys that can be read back |
| `Graph`, `Schemas`, `MemoryStores` | nodes and edges, schemas and rule expressions, the in-memory store |
| `Reference`, `Expiry` | the promise written from schema and edges alone, and that the decisions keep it; expiring edges |
| `Walk`, `Runs` | the walk: a state-passing specification, and the class that performs it by updating its fields |
| `Semantics`, `Soundness`, `Exactness`, `Bounds`, `Paths`, `MemoKeys` | what the walk computes, termination, the bound, evidence, its memo |
| `Grounding`, `Cycles`, `Separation`, `Knots`, `Declarations` | intersection and subtraction: where the walk is exact and where it is not, on data and by declarations |
| `Checks`, `CheckTheorems`, `Lifecycle` | decisions and reasons; the platform's own membership rule |
| `Delegate`, `Writes`, `Delegation` | who may write an edge, what the write check asks, and that nobody hands out more than they hold |
| `Reverse` | breadth-first search, the two reverse queries and whom they miss |
| `Validation`, `ValidSchemas`, `IdleFlags`, `RuleText`, `RoundTrip`, `SchemaText`, `ParserLaws`, `PlatformText` | the validator and a warning, rule bodies as text and their round trip, the schema language, what its lines are read as and refused for |
| `Inheritance` | the role walk and set flattening |
| `Merchant`, `MerchantMeaning` | merchant schemas: the schema, its text, its generator and its meaning |
| `Workflow` | running, pausing, resuming and validating action graphs |

## What the code promises and what is true of it

- **The promise.** `Reference.Attains` says what a subject attains from the schema and the
  edges, every comparison written out and no part of the walk used. The meanings below are
  this one (`Reference.AttainsIsSense`), so decisions and reasons are
  (`Reference.CheckDecidesAttainment`). An edge with an expiry counts exactly before it
  (`Expiry.CheckSeesWhatStands`), and in additive schemas time only revokes
  (`Expiry.TimeOnlyRevokes`).
- **The least fixed point.** For relations, rule references, arrows and unions, a check
  that returns without error is exactly the least fixed point of the rules, on any data,
  cyclic or not (`CheckTheorems.CheckDecidesReachability`). Termination holds for every
  schema and all data: it is the `decreases` clause of `Walk.Satisfies` and of every method
  of `Runs.Run`.
- **Intersection and subtraction.** The memo marks a term dead even when its failure leaned
  on an ancestor that was still open (core/reach/walk.go:276-293). For `&` and `-` the walk is
  exact wherever the questions the operands share have no cycle below them
  (`Separation.CheckDecidesSeparate`): that covers data without a cycle below the query
  (`CheckTheorems.CheckDecidesMeaning`, `Cycles.AcyclicCheckDecidesMeaning`), cyclic data on
  which the operands ask nothing in common, and what lies between. The same can be read off
  the declarations: rules whose declared targets have no cycle below them, or whose operands
  share only such questions, are decided as they are meant on every store anyone can write
  (`Declarations.AcyclicRuleIsExact`, `Declarations.DeclaredSeparateIsExact`). On all data the
  walk is exact for a rule over two relations only when the two are the same relation
  (`Knots.PairIsExactIff`; over writable edges and in the answers of Check,
  `Knots.CheckedPairIsExactIff`): any two different relations can be tied into a knot it
  misjudges, with a validated schema and writable edges (`Knots.CheckMissesAnIntersection`,
  `Knots.CheckMissesASubtraction`). The platform's own `member` is no exception
  (`Lifecycle.ValidatedMemberMissesASuspension`); what it means elsewhere is
  `Lifecycle.MemberMeans` and `Lifecycle.MemberMeansSeparate`. On all data and for the whole
  grammar a match is backed by a real path and derivable with subtractions read as their base
  (`Soundness.MatchIsEarned`).
- **Store keys.** The store is a map of facts through every history over a vocabulary exactly
  when no type of the vocabulary is another one followed by `:` and any text, and no relation
  of it another one preceded by text and `#` (`MemoryStores.StoreIsMapIff`). Edge validation
  does not see to that (core/reach/graph.go:43-54, 111-127); identifiers do.
- **Memo keys.** The memo's text keys are told apart under the same kind of condition
  (`MemoKeys.MemoKeysToldApartIff`). Over a validated schema and writable edges every question
  a walk asks is named by identifiers (`MemoKeys.ChecksAreWellNamed`), so there the text memo
  mirrors the structured one (`MemoKeys.MirrorKept`).
- **Search keys.** The reverse searches remember points and nodes by their text; over a
  validated schema and writable edges, from an identifier-named type, that is remembering them
  by value (`SearchKeys.BackwardKeysAreFaithful`, `SearchKeys.ForwardKeysAreFaithful`).
- **Reverse search.** Every confirmed answer is right, but the backward search looks at edges
  naming the caller and not at edges naming everyone of the caller's type
  (core/reach/reverse.go:170-182): a document granted to `user:*` is missed for `user:a`, with
  nothing truncated and `all` unset (`ReverseReach.StarGrantIsMissed`). Over a schema of one
  relation nobody is missed exactly when it admits no star subjects
  (`ReverseReach.OpenIsCompleteIff`), and over any schema without stars whose arrows lead to
  plain nodes nobody is (`ReverseReach.PlainSchemaIsComplete`).
- **Roles and the subset rule.** `CanWrite` asks for the actions a relation feeds on the
  object's own type (core/reach/delegate.go:114-131); what it accepts, for every schema, is
  `Writes.AcceptedIff`, and what the carve-outs change `Writes.CarveOutcomes`. Holding a role and being in a group feed
  none there, so anyone may write such an edge, and a newcomer may then do what nobody in the
  store could (`MerchantMeaning.JoiningGivesWhatNobodyHeld`). In a merchant's namespace with
  any action at all the rule contains what is written under a relation exactly when that is
  neither `member_of` nor `holder` (`MerchantMeaning.ContainedIff`).
- **Reasons.** The comment on `ReasonUnreachable` says no path of any kind reaches the
  resource (core/reach/walk.go:34-35). The code reports it when no rule of the
  resource's type matches, and in additive schemas exactly then
  (`CheckTheorems.CheckDecidesReachability`), which an edge naming the
  caller under a relation no rule reads does not change (`Knots.UnreadEdgeIsUnreachable`).
- **A subtracted match ends the search.** When a run sets the excluded flag, the reason is
  `ReasonExcluded` and no other action is tried (core/reach/walk.go:139-141), as modelled in
  `Checks.Decide`.

## Model

| member | source | states |
|---|---|---|
| Runs.Run.Satisfies | core/reach/walk.go:209-270 | the in-place walk returns the answer, path, memo and excluded flag that the state-passing specification gives, and terminates on all data and schemas |
| Runs.Run.Memoised | core/reach/walk.go:272-293 | a term in progress or dead is missed without change; a match forgets the term, a miss marks it dead, an error leaves it open |
| Runs.Run.Relation | core/reach/walk.go:295-337 | the edge loop of a relation: usersets, direct matches and star subjects, transitive nesting, in edge order, the first match winning |
| Runs.Run.Arrow | core/reach/walk.go:339-372 | the edge loop of an arrow: the far type's rule when it has one, else its relation |
| Runs.Run.Rule | core/reach/walk.go:374-384 | a rule reference evaluates the object's own rule at the same depth; an undeclared type or rule reaches nothing |
| Walk.TermAnswer | core/reach/walk.go:209-293 | every memoised kind of term is one scheme: the body asked from the memo with the term opened, then remembered |
| Semantics.DerivesMono | core/reach/walk.go:209-384 | derivations only grow with height, so derivability is one union of stages |
| Semantics.DerivableIsFixedPoint | core/reach/walk.go:209-384 | derivability is a fixed point of the rules |
| Semantics.DerivableIsLeast | core/reach/walk.go:209-384 | derivability lies inside every interpretation closed under the rules |
| Semantics.DerivableByEdge | core/reach/walk.go:295-372 | one live edge whose next question is derivable derives the term |
| Soundness.MatchIsEarned | core/reach/walk.go:209-417 | for the whole grammar and any memo, every step of a match is an active edge the resolver returned, and those edges alone, in any other resolver that keeps them, derive the answer |
| Exactness.MissSettles | core/reach/walk.go:276-293 | in the additive fragment a miss leaves a closed set of failures: the continuations of every dead term are all marked, except for terms known to fail beforehand; nothing else changes |
| Exactness.BlockedUnderivable | core/reach/walk.go:276-293 | nothing blocked by a closed set of failures, or by questions known to fail, has a derivation of any height |
| Exactness.MissIsUnderivable | core/reach/walk.go:209-293 | in the additive fragment a walk that misses without error, from any memo of true negatives, proves there is no derivation, cyclic data included, and leaves such a memo |
| Grounding.GroundedStable | core/reach/walk.go:209-293 | on data without a cycle below the query the compositional meaning does not depend on how far it is unfolded |
| Grounding.WalkIsRight | core/reach/walk.go:209-293 | for the whole grammar, on such data, the memoised walk equals the compositional set meaning, from any memo of true negatives |
| Grounding.TameStaysTame | core/reach/walk.go:272-293 | for the whole grammar and on any data a call that does not fail leaves nothing new in progress and dead marks that are true wherever the data is grounded |
| Grounding.FlagIsExact | core/reach/walk.go:253-266 | on grounded data a run sets the excluded flag exactly when a subtraction, met before the outcome is decided, has both its sides holding |
| Cycles.RankedIsGrounded | core/reach/walk.go:209-293 | a rank that every question lowers makes the data grounded |
| Cycles.AcyclicCheckDecidesMeaning | core/reach/walk.go:116-156 | on acyclic dependency graphs a check that returns gives exactly the decision and reason the rule means, `&` and `-` included |
| Separation.Framed | core/reach/walk.go:276-293 | a walk neither reads nor changes memo marks outside a closed set of questions that holds its own |
| Separation.OperandIsExact | core/reach/walk.go:209-293 | an additive operand is decided from any memo clean on its additive questions, and its miss adds nothing but true negatives |
| Separation.SeparateIsExact | core/reach/walk.go:233-268 | a walk over `+`, `&` and `-` of additive or grounded operands that share grounded questions only computes the set meaning, on any data |
| Separation.GroundedIsSeparate | core/reach/walk.go:233-268 | a rule that is grounded as a whole is such an expression, so the theorem on grounded data is a case of this one |
| Separation.GroundedDerivable | core/reach/walk.go:209-293 | for an additive question on grounded data the least fixed point and the compositional meaning are one |
| Separation.CheckDecidesSeparate | core/reach/walk.go:112-156 | the same in the answers of Check |
| Declarations.AcyclicIsGrounded | core/reach/delegate.go:79-112 | a question whose declared targets have no cycle below them is grounded in every store of writable edges |
| Declarations.AcyclicRuleIsExact | core/reach/walk.go:112-156 | for every schema, a rule over such declarations is decided as it is meant, `&` and `-` over different relations included, on every writable store |
| Declarations.DeclaredSeparateIsExact | core/reach/walk.go:112-156 | a schema whose operands share by their declarations only acyclic questions is decided as it is meant on every writable store, cyclic ones included |
| Knots.TangleMisleads | core/reach/walk.go:272-293 | two groups inside each other: the walk misses an intersection that holds and matches a subtraction that does not |
| Knots.PairIsExactIff | core/reach/walk.go:233-268 | over two declared relations `a & b` and `a - b` are exact on all data exactly when the two are the same relation |
| Knots.CheckMissesAnIntersection | core/reach/walk.go:112-156 | for any two relation names a validated schema and writable edges on which Check answers unreachable though the caller holds both relations of the rule |
| Knots.CheckMissesASubtraction | core/reach/walk.go:112-156 | the same on which Check allows what the rule subtracts |
| Knots.CheckedPairIsExactIff | core/reach/walk.go:112-156 | over all writable edges of such a schema Check is exact on the pair exactly when the two relations are the same |
| Knots.UnreadEdgeIsUnreachable | core/reach/walk.go:34-35 | a validated schema and a writable edge from the resource to the caller with which Check answers unreachable |
| Bounds.LargerBound | core/reach/walk.go:11-14 | a call that stays under the depth bound gives the same answer, path and memo under every larger bound |
| Bounds.NeverFails | core/reach/walk.go:209-293 | with as many levels as there are questions in a closed set, a walk inside it never fails and closes what it opened |
| Bounds.EnoughDepthNeverFails | core/reach/walk.go:209-293 | over finitely many edges a walk never fails once the bound reaches the number of questions |
| Paths.MatchChains | core/reach/walk.go:295-372 | in additive schemas a returned path runs unbroken from the object, or its star, to the caller, or everyone of its type |
| MemoKeys.KeyTextIsInjective | core/reach/walk.go:216-232 | the text keys of the memo agree exactly when object and term agree, for identifier names and arbitrary ids |
| Keys.ToldApartIff | core/reach/graph.go:150-152 | keys made of a name, an id and a name are told apart over all ids that are not blank exactly when no left name extends another past the separator and no right name precedes another past it |
| MemoKeys.MemoKeysToldApartIff | core/reach/walk.go:276-278 | the memo tells all questions over some types and terms apart exactly under that condition on their texts |
| MemoKeys.ExtendedTypesCollide | core/reach/walk.go:276-278 | a type that extends another past a colon shares memo keys with it, whatever is asked |
| MemoKeys.MarksStayWellNamed | core/reach/walk.go:276-293 | over a validated schema and writable edges no call marks anything but questions named by identifiers |
| MemoKeys.ChecksAreWellNamed | core/reach/walk.go:112-156 | in particular a check of a declared type marks only such questions, whatever the ids |
| MemoKeys.MirrorKept | core/reach/walk.go:276-293 | starting, marking and forgetting well-named questions under text keys mirrors the same under structured keys |
| Checks.Check | core/reach/walk.go:112-156 | Check returns the specified decision: request defects in order, then allowed with its path, excluded, no rule, or unreachable |
| Checks.ReachesAtAll | core/reach/walk.go:165-185 | the other actions of the type are tried in sorted order, each by a fresh run, until one matches or fails |
| Checks.FirstReaching | core/reach/walk.go:174-184 | the loop over those actions stops at the first match or error |
| CheckTheorems.CheckDecidesReachability | core/reach/walk.go:112-156 | with relations, rules, arrows and unions only, the answer and the reason are exactly those of the least fixed point |
| CheckTheorems.CheckDecidesAdditiveAction | core/reach/walk.go:112-156 | the same answer for an additive action inside a schema that subtracts elsewhere |
| CheckTheorems.AddingEdgesNeverRevokes | core/reach/walk.go:112-156 | adding edges never revokes |
| CheckTheorems.EdgeOrderIsIrrelevant | core/reach/walk.go:112-156 | the order in which edges are returned changes neither answer nor reason |
| CheckTheorems.AllowedPathIsReal | core/reach/walk.go:112-156 | every step of an allowing path is an active edge, in any schema |
| CheckTheorems.AllowedPathIsAChain | core/reach/walk.go:295-372 | in additive schemas the path chains from the resource to the caller |
| CheckTheorems.AllowedPathSuffices | core/reach/walk.go:112-156 | asked again over a resolver holding the edges of the path, the answer is still yes |
| CheckTheorems.DecisionSurvivesLargerBound | core/reach/walk.go:11-14 | decision, reason and path made under one bound are the same under every larger one |
| CheckTheorems.CheckDecidesMeaning | core/reach/walk.go:112-156 | for the whole grammar on grounded data: allowed exactly when the rule means it, and otherwise excluded exactly when a subtraction took something away, no-rule exactly when another rule matches, unreachable exactly when none does |
| Reference.AttainsIsSense | core/reach/walk.go:209-417 | the least fixed point and the compositional meaning are the one promise written from schema and edges alone: stars at either end, expiry, usersets, nesting, arrows to rules or relations |
| Reference.CheckDecidesAttainment | core/reach/walk.go:112-156 | in additive schemas a returned decision and its reason are exactly what that promise says |
| Reference.GroundedCheckDecidesAttainment | core/reach/walk.go:112-156 | on grounded data so is the answer of the whole grammar |
| Expiry.CheckSeesWhatStands | core/reach/graph.go:104-107 | for every schema and all data a check at an instant is, decision, reason and path, the check at any instant over exactly the edges with no expiry or a later one, their expiry removed |
| Expiry.TimeOnlyRevokes | core/reach/graph.go:89-92 | in additive schemas what is allowed at an instant was derivable, and allowed, at every earlier one |
| CheckTheorems.AmpleBoundAlwaysDecides | core/reach/walk.go:112-156 | over finitely many edges a well-formed request under an ample bound always gets a decision |
| Lifecycle.LifecycleBodiesParse | internal/accessmodel/schema.go:99-103 | the two lifecycle bodies parse and resolve to (belongs - suspended) + oversees and belongs + oversees |
| Lifecycle.MemberWithinReach | internal/accessmodel/schema.go:99-103 | whoever is allowed `member` is allowed `reach`, on any data |
| Lifecycle.MemberMeans | internal/accessmodel/schema.go:27-31 | on grounded data `member` is exactly (belongs and not suspended) or oversees |
| Lifecycle.MemberMeansSeparate | internal/accessmodel/schema.go:27-31 | the same on any data, cycles included, on which belonging, suspension and oversight share grounded questions only |
| Lifecycle.MemberMissesASuspension | internal/accessmodel/schema.go:27-31 | writable edges with two groups inside each other on which Check allows `member` to a suspended caller, in every schema that declares membership this way |
| Lifecycle.PlatformIsValid | internal/accessmodel/schema.go:50-105 | the part of the platform's schema that membership rests on passes the validator |
| Lifecycle.ValidatedMemberMissesASuspension | internal/accessmodel/schema.go:50-105 | the same failure in that validated schema |
| Delegate.CanWrite | core/reach/delegate.go:40-75 | the write check gives the specified outcome, which `Writes` describes |
| Writes.AcceptedIff | core/reach/delegate.go:40-75 | for every schema an ordinary write is accepted exactly when the edge is sound and legal, the granter sound, and Check allows the granter every action whose rule the relation feeds |
| Writes.RefusedFor | core/reach/delegate.go:40-112 | each refusal is given in exactly one case; otherwise the first action not allowed is reported as it failed |
| Writes.CarveOutcomes | core/reach/delegate.go:20-61 | the root of trust writes every sound and legal edge, an unknown carve-out none |
| Writes.FedActionsAreThose | core/reach/delegate.go:118-131 | the fed actions, in order, are exactly those whose rule the relation occurs in outside subtracted sides, `&` and `-` included |
| Writes.RequestRefusedFor | core/reach/walk.go:112-128 | Check refuses a request for its subject, resource, action or type in exactly the stated cases |
| Delegate.FindLacking | core/reach/delegate.go:57-74 | the loop over fed actions reports the first one refused or in error |
| Delegate.SortedActionsFed | core/reach/delegate.go:118-131 | the list of fed actions that `Writes.FedActionsAreThose` describes |
| Delegation.StarLifts | core/reach/walk.go:386-417 | what a subject reaches on T:* it reaches on every T:x, when star edges sit only under relations that admit them |
| Delegation.StarGrantsLift | core/reach/delegate.go:93-100 | over a store of writable edges, whatever a subject may do on T:* it may do on T:x |
| Delegation.OtherRelationsUnchanged | core/reach/delegate.go:114-131 | relations other than the one written mean the same after the write |
| Delegation.RuleGains | core/reach/delegate.go:28-75 | what a subject reaches through a rule after an accepted write, it or the granter reached before |
| Delegation.NoEscalation | core/reach/delegate.go:28-75 | whatever anyone newly reaches after an accepted write, on any resource and action, the granter already reached there |
| Delegation.NewlyAllowedWasAllowedToGranter | core/reach/delegate.go:28-75 | the same in the answers of Check before and after |
| Delegation.PowersAreConserved | core/reach/delegate.go:28-75 | over any run of accepted writes and deletions, an action someone may perform is one someone could perform at the start |
| Candidacy.AllowedObjectIsCandidate | core/reach/reverse.go:136-199 | every object Check allows is a candidate of the backward search, for star-free edges with plain arrow edges |
| Candidacy.AllowedSubjectIsCandidate | core/reach/reverse.go:245-303 | every subject Check allows is named by the forward search, or everyone of its type is |
| Candidacy.ClosureReaches | core/reach/reverse.go:144-199 | a frontier closed under the search holds every point the search can reach |
| Reverse.CandidateObjects | core/reach/reverse.go:144-199 | candidates only, at most a thousand; all of them unless truncated; when truncated a thousand, or all that lie nearer than the depth bound with a point at the bound |
| Reverse.Scan | core/reach/reverse.go:166-196 | one item: its edges are counted and both forms of each object queued one level on, or the search stops because the cap is met |
| Reverse.ListObjects | core/reach/reverse.go:94-134 | the objects are, in order, exactly the gathered candidates Check allows, truncated or not; over invertible edges untruncated they are exactly the allowed objects; `all` reports the star; a failed check reported is that of the star or of a candidate |
| Reverse.CandidateSubjects | core/reach/reverse.go:248-303 | the forward search hands on named nodes in the same way |
| Reverse.ListSubjects | core/reach/reverse.go:206-243 | the subjects are, in order, exactly the gathered concrete nodes Check allows, and `all` says whether a star was gathered; untruncated, every allowed concrete subject is listed or `all` is set; a failed check reported is that of a concrete candidate |
| ReverseReach.PlainSchemaIsComplete | core/reach/reverse.go:136-199 | over a validated schema without stars whose arrows lead to plain nodes the backward search misses no allowed object of any writable store |
| ReverseReach.StarGrantIsMissed | core/reach/reverse.go:170-182 | writable edges on which Check allows a document, the star of its type is not allowed, and the search finds nothing and cuts nothing off |
| ReverseReach.OpenIsCompleteIff | core/reach/reverse.go:136-199 | over a relation with plain targets nobody is missed on any writable store exactly when it admits no star subjects |
| SearchKeys.BackwardKeysAreFaithful | core/reach/reverse.go:144-180 | over a validated schema and writable edges points of the backward search share a key text only if equal, and candidates have as many texts as there are candidates |
| SearchKeys.ForwardKeysAreFaithful | core/reach/reverse.go:248-303 | the same of the forward search |
| Reverse.SortedNodes | core/reach/reverse.go:305-321 | the nodes of a set sorted by type and id |
| Levels.HeadIsNearest | core/reach/reverse.go:155-165 | a point first taken from the queue is taken at its nearest distance |
| Levels.HeadIsDeep | core/reach/reverse.go:159-162 | the depth bound cuts the search off only where some point lies that deep |
| Validation.RuleCycleCheckDecides | core/reach/schema.go:369-402 | the rule cycle check passes on all rules of a type exactly when its rule references have no cycle |
| Validation.PassedPathsAreFresh | core/reach/schema.go:369-402 | from a rule that passes, no path of references meets the current path or itself |
| Validation.ExprFeedsIsExact | core/reach/delegate.go:133-168 | a relation feeds a rule exactly when it occurs, outside subtracted sides, in its unfolding |
| Validation.ValidatedSchemaIsClean | core/reach/schema.go:201-402 | a validated schema has no bare word, no empty intersection and no rule cycle, names keyed as they are called, and no action twice |
| ValidSchemas.LoadsIff | core/reach/schema.go:198-402 | the validator accepts exactly the schemas whose names are identifiers keyed by themselves, whose targets are declared and carried, whose rules answer declared actions and say only what their type and the far types say, and whose rules do not refer to themselves |
| ValidSchemas.NothingDangles | core/reach/schema.go:198-402 | over a validated schema and writable edges no question a check leads to is about an undeclared relation, a relation its type does not carry or nest, or a rule that is not there |
| IdleFlags.IdleFlagHasNoEffect | core/reach/schema.go:405-510 | where a validated schema is warned that a transitive flag is idle, flipping it changes no decision, reason, path or error over any writable edges |
| Validation.ArrowsAreAnswered | core/reach/schema.go:328-350 | an arrow of a validated rule crossing a writable edge arrives at a type that answers it |
| Expand.Expander.Resolve | core/reach/expand.go:79-119 | resolving a set gives its exact sorted members and its exact longest chain, or a defect that is really there |
| Expand.Expander.Gather | core/reach/expand.go:92-109 | the loop over parents collects exactly their members and the height above them |
| Expand.ExpandSets | core/reach/expand.go:41-137 | succeeds exactly when ids are non-empty and unique, parents supplied and no chain exceeds the limit given, five when it is not positive; each list is the sorted union over everything inherited; each error names a real defect |
| Expand.FlatIsUnique | core/reach/expand.go:41-137 | the same sets in any order flatten to the same lists |
| Expand.CycleExceeds | core/reach/expand.go:79-82 | a cycle gives chains longer than any cap, so acyclicity is part of flattenability |
| Expand.DefectBlocks | core/reach/expand.go:50-137 | a reported defect means the sets cannot be flattened |
| Roles.EffectiveRolePermissions | internal/service/delegation.go:97-149 | for the last row with the id, if its key is not empty: the sorted union of permissions over everything fewer than sixteen parent links above it, cyclic hierarchies included; otherwise none |
| Roles.TableIsLast | internal/service/delegation.go:107-112 | of rows with one key the last one counts |
| Roles.Level | internal/service/delegation.go:126-141 | one level absorbs exactly the new keys of the frontier and queues their parents |
| Roles.AgreesWithExpandSets | internal/service/delegation.go:97-149 | on hierarchies that flatten under a smaller cap the role walk and the set flattening give the same list |
| MemoryStores.MemoryStore.Write | core/reach/graph.go:154-169 | edges are written in order, a stored subject is overwritten, and the first malformed edge stops the write |
| MemoryStores.MemoryStore.Delete | core/reach/graph.go:178-187 | removes the edge of that subject whatever expiry is given, and reports whether it was there |
| MemoryStores.MemoryStore.EdgesForSubject | core/reach/graph.go:189-209 | the edges naming the subject, each as often as stored, in the order of their text |
| MemoryStores.MemoryStore.Edges | core/reach/graph.go:220-223 | for every map of facts the store refines, exactly the facts of that object and relation, each once with its expiry |
| MemoryStores.MemoryStore.Len | core/reach/graph.go:225-232 | the number of stored edges, in any key order |
| MemoryStores.KeyIsInjective | core/reach/graph.go:150-152 | over clear names objects and relations share a key only if equal |
| MemoryStores.UnclearNamesCollide | core/reach/graph.go:150-152 | over any other names two valid edges of different objects or relations share a key |
| MemoryStores.StoreIsMapIff | core/reach/graph.go:139-187 | the store is the map of facts through every history over a vocabulary exactly when its names are clear |
| MemoryStores.PutRefines | core/reach/graph.go:156-169 | a write sets the expiry of its (object, relation, subject) and changes nothing else |
| MemoryStores.DropRefines | core/reach/graph.go:179-187 | a delete removes its fact and nothing else |
| MemoryStores.StoreRefinesMap | core/reach/graph.go:139-187 | through every history of writes and deletes over clear names the store is a finite map from fact to expiry |
| MemoryStores.LenIsMapSize | core/reach/graph.go:226-232 | Len is the size of that map |
| MemoryStores.ReverseViewIsExact | core/reach/graph.go:195-209 | the reverse view holds each stored edge naming the subject once, and nothing else |
| MemoryStores.ForwardViewIsExact | core/reach/graph.go:221-223 | the forward view of an object of the vocabulary holds exactly its own facts, each once |
| MemoryStores.EdgeTextTellsApart | core/reach/graph.go:78-102 | edges of one subject and expiry, named by identifiers, share a text only if they are one edge |
| RuleText.SplitTerms | core/reach/parse.go:282-326 | the lexing loop cuts a body at operators, `->` never read as subtraction, and refuses empty terms |
| RuleText.ParseExpr | core/reach/parse.go:242-280 | the parsing loop builds the left-associated tree, flat for repeated `+` or `&` |
| RoundTrip.ParsedIsSpine | core/reach/parse.go:242-280 | whatever the parser returns is a left spine of unresolved words and arrows |
| RoundTrip.PrintThenParse | core/reach/schema.go:178-194 | printing a parsed body and parsing it again gives the same tree |
| RoundTrip.ResolvedPrintThenParse | core/reach/parse.go:360-407 | the round trip survives resolution on the same type |
| RoundTrip.ParsedMeansFold | core/reach/parse.go:242-280 | a parsed body denotes the strict left-to-right fold of its terms |
| Reading.ReadsMore | core/reach/parse.go:242-407 | one more operator and term on the right of a body extends both its parsed and its resolved tree by it |
| SchemaText.Parser.Line | core/reach/parse.go:75-128 | a line changes the parser's fields as its keyword says, or fails and changes nothing |
| SchemaText.Parser.AddRelation | core/reach/parse.go:130-168 | the field gains the relation the line is read as, or nothing changes and the refusal is reported; `RelationLines` says what lines are read as |
| RelationLines.DefinitionRoundTrip | core/reach/schema.go:36-58 | every relation definition, both flags and all four star positions, printed with its words is read back from its line as itself |
| RelationLines.OnlyTheseWords | core/reach/parse.go:146-183 | modifiers are read exactly when each is a flag, or `wildcard` before one of the position words or nothing |
| RelationLines.RelationRefusedIff | core/reach/parse.go:130-168 | a declaration is refused exactly when it has no name, its name is taken, or one of its modifiers is another word |
| PlatformText.PlatformDeclarationsRead | internal/accessmodel/schema.go:52-68 | the platform's declaration lines are read as exactly its thirteen relations, each with its flag and star position |
| PlatformText.MembershipDeclaresThese | internal/accessmodel/schema.go:52-60 | the definitions membership is proved about are those of these lines |
| SchemaText.Parser.AddTypeRelation | core/reach/parse.go:185-212 | a relation of the open type with its targets, refused outside a type, unnamed, repeated or without targets |
| SchemaText.Parser.AddRule | core/reach/parse.go:214-232 | a rule of the open type with its parsed body, refused outside a type, without action or body, or repeated |
| SchemaText.Parser.ResolveRules | core/reach/parse.go:345-358 | rules resolved in place in any order; fails exactly when some bare word names nothing |
| SchemaText.ParseText | core/reach/parse.go:26-44 | reading, resolving and validating a text gives the specified schema or error, which `ParserLaws` describes |
| ParserLaws.ResolutionIsReading | core/reach/parse.go:345-407 | resolution succeeds exactly when every bare word names a relation or a rule, and reads it as the relation first, all else unchanged |
| ParserLaws.ArrowTermRead | core/reach/parse.go:328-343 | a term cut at its first arrow is an arrow between its trimmed sides, refused when one is blank or another arrow follows |
| ParserLaws.TypeLineDoes | core/reach/parse.go:97-110 | a type line is refused exactly when its name is missing or taken, and otherwise opens that type, empty |
| ParserLaws.TypeRelationLineDoes | core/reach/parse.go:185-212 | a relation line with an arrow is refused exactly without an open type, a name, a free name or a target, and otherwise adds its targets |
| ParserLaws.RelationLineDoes | core/reach/parse.go:112-168 | a relation line without an arrow is refused exactly without a name, a free name or known modifiers, and otherwise adds one definition of that name |
| ParserLaws.RuleLineDoes | core/reach/parse.go:214-232 | a rule line is refused exactly without an open type, an action, a free action or a body that parses, and otherwise adds the body |
| ParserLaws.DeclaredTwiceIsRefused | core/reach/parse.go:97-144 | a text that opens a type twice or declares a relation of the namespace twice, wherever, is refused |
| SchemaText.Strip | core/reach/parse.go:55-68 | cuts a line at `//` or at a `#` that starts it or follows a blank |
| SchemaText.ResolveReadsNames | core/reach/parse.go:360-395 | resolving one rule does not depend on whether the others are resolved yet |
| SchemaLines.TargetsRoundTrip | core/reach/schema.go:70-75 | a printed target list, usersets included, is read back as the same targets |
| MerchantText.NamespaceReads | core/reach/parse.go:80-86 | the namespace line of any newline-free organisation sets the namespace it spells |
| SchemaLines.TypeRead | core/reach/parse.go:97-110 | a type line opens an empty type of that name and changes nothing else |
| SchemaLines.TypeRelationRead | core/reach/parse.go:185-212 | a printed relation line adds exactly that relation to the open type |
| SchemaLines.DeclarationRead | core/reach/parse.go:130-168 | a padded relation declaration adds exactly the definition its modifiers spell |
| SchemaLines.RuleRead | core/reach/parse.go:214-232 | a rule line adds exactly the parsed body under its action |
| SchemaLines.ActionsRead | core/reach/parse.go:87-95 | an action line appends exactly the joined names |
| SchemaLines.CleanStays | core/reach/parse.go:55-68 | text with no comment start, userset `#` included, survives comment stripping |
| SchemaLines.UnlinesSplit | core/reach/parse.go:28-29 | newline-free lines written one after the other are split back into those lines |
| Merchant.MerchantSchemaValidates | internal/accessmodel/merchant.go:52-243 | the schema of every good vocabulary passes the validator: declared targets, answered arrows, no rule cycle |
| Merchant.MerchantSchemaHasNoWarnings | internal/accessmodel/merchant.go:237-241 | it declares no unused relation, no idle transitive flag and no unanswered action |
| Merchant.ParentsAnswer | internal/accessmodel/merchant.go:182-185 | every container answers every action, so every parent arrow is answered |
| MerchantText.BodyReads | internal/accessmodel/merchant.go:199-205 | a generated rule body parses and resolves to the rule it stands for |
| MerchantText.BlockRead | internal/accessmodel/merchant.go:186-231 | a generated type block adds exactly that type's relations and rules |
| MerchantText.HeadRead | internal/accessmodel/merchant.go:101-174 | the generated head of any newline-free organisation declares exactly its namespace, actions and relations |
| Generator.MerchantTextParses | internal/accessmodel/merchant.go:101-243 | the whole generated text parses, resolves and validates as exactly the schema of the vocabulary, under the namespace its first line spells |
| Generator.ReadVocabulary | internal/accessmodel/merchant.go:53-92 | keys and scope kinds are read with the stated refusals, in order |
| Generator.WriteSchema | internal/accessmodel/merchant.go:101-231 | the writing loops produce exactly the lines of the vocabulary |
| Generator.MerchantSchema | internal/accessmodel/merchant.go:52-243 | the generator returns the parsed schema of that text, or the stated error |
| Generator.GoodModelGetsItsSchema | internal/accessmodel/merchant.go:52-243 | for every model with an organisation on one line, valid, distinct, non-structural names and no action `all`, generation succeeds with exactly the schema of its vocabulary |
| Generator.NamespaceIsStart | internal/accessmodel/merchant.go:104-105 | its namespace is a trimmed start of `org:` and the organisation |
| Generator.VocabularyIsDeclared | internal/accessmodel/merchant.go:57-100 | that vocabulary holds exactly the declared scope kinds and the pairs the keys spell |
| Generator.VocabularyRefusedFor | internal/accessmodel/merchant.go:52-92 | a model has a vocabulary exactly when its organisation is not blank, every key is a resource and an action around a colon, and no resource or scope kind is structural; each refusal names its cause, and the vocabulary holds exactly what was declared |
| MerchantMeaning.MerchantRulesMean | internal/accessmodel/merchant.go:180-231 | under a generated schema over writable edges an action is derivable exactly by owning the resource, or holding the action or every action on it or on a container any number of parent edges above it |
| MerchantMeaning.MerchantCheckMeans | internal/accessmodel/merchant.go:180-231 | the same in the answers of Check |
| MerchantMeaning.MerchantRelationIsLocal | internal/accessmodel/merchant.go:120-164 | every relation of a generated schema but member_of and holder is read only at the object it is written on |
| MerchantMeaning.MerchantNobodyEscalates | core/reach/delegate.go:28-75 | in a generated schema nobody gives away, under such a relation, an action they do not reach themselves |
| MerchantMeaning.PrincipalsFeedNothing | core/reach/delegate.go:114-131 | in a generated schema what is written on groups, roles and other principals feeds no action of theirs |
| MerchantMeaning.JoiningGivesWhatNobodyHeld | core/reach/delegate.go:28-75 | for roles and for groups: a store in which neither writer nor newcomer may do an action, the accepted write of the newcomer as holder or member, and the newcomer may then do it |
| MerchantMeaning.ContainedIff | core/reach/delegate.go:28-75 | in a namespace with any action, whatever anyone newly reaches after an accepted write under a relation they or the writer already reached, exactly when the relation is neither member_of nor holder |
| MerchantMeaning.GrantMeans | internal/accessmodel/merchant.go:140-164 | a grant holds exactly when an active edge on the node or its star covers the caller directly, as everyone, through a group or through a role |
| MerchantMeaning.ContainerAllows | internal/accessmodel/merchant.go:180-231 | one grant on a container covers everything nested in it at any depth |
| Workflow.RunActionGraph | core/automations/workflow.go:142-154 | runs from the first action |
| Workflow.RunActionGraphFrom | core/automations/workflow.go:156-204 | the run loop executes, reports and fails exactly as the specified walk, which `RunReports` describes |
| RunReports.ReportTells | core/automations/workflow.go:142-204 | read off the report: at most 64 actions run, each where the one before led by success or failure, details in order; the error says that there was nothing to run, the start was unknown, the last action paused or broke without on_error, or the run could not go on: too long, back at an action, at an unknown one; none exactly when it led nowhere further |
| RunReports.FailureIsReported | core/automations/workflow.go:186-204 | a failure is reported exactly when the last action broke without on_error, a finished run exactly when it succeeded without on_success, a pause exactly when it paused |
| RunReports.ValidatedMeans | core/automations/workflow.go:56-95 | what validation asks: actions, ids that are there and unique when trimmed, edges to other known ids, success paths that end |
| Workflow.RunsEachOnce | core/automations/workflow.go:168-204 | however the runner answers, no action runs twice in a run and at most 64 run |
| Workflow.PauseResumeCompose | core/automations/workflow.go:142-204 | interrupted at any succeeding step and resumed from its on_success, the two segments execute, report and end exactly as the uninterrupted run that trips no guard |
| Workflow.FreshStart | core/automations/workflow.go:156-204 | a run that trips no guard does not depend on what was executed before it |
| Workflow.ValidateActionGraph | core/automations/workflow.go:56-95 | accepts only graphs with named unique ids, known targets, no self edge and ending success paths; refuses only graphs with such a defect or a success cycle reached from the entry |
| Workflow.DetectCycle | core/automations/workflow.go:97-140 | accepts only when success paths from the entry and from error branches on them end; refuses only when a success cycle is reached from the entry along success and error edges, whatever part of the growing map the second loop visits |
| Workflow.CycleSearch.Visit | core/automations/workflow.go:100-124 | the depth-first search settles every id whose success path ends, or finds a cycle reached from the entry |
| Workflow.ValidatedGraphFinishes | core/automations/workflow.go:56-204 | a validated graph of at most 64 actions that all succeed finishes with no error |

## Left out

- Separation.CheckDecidesSeparate: asks that shared questions be grounded. On data where they are not, the answer can be right or wrong; which of the two is characterised relation by relation (`Knots.PairIsExactIff`) and by declarations (`Declarations.DeclaredSeparateIsExact`), not store by store.
- Lifecycle.MemberMeans: excludes cyclic data, where the code does not promise it (`Lifecycle.MemberMissesASuspension`); `Lifecycle.MemberMeansSeparate` covers cyclic data whose shared questions are grounded.
- Candidacy.AllowedObjectIsCandidate: assumes star-free edges, plain arrow edges and a faithful reverse index; `ReverseReach.StarGrantIsMissed` shows a star subject that is missed, `ReverseReach.PlainSchemaIsComplete` which declarations give the assumption.
- Declarations.DeclaredSeparateIsExact: a sufficient condition on arbitrary schemas; necessity is proved for schemas over two relations (`Knots.CheckedPairIsExactIff`).
- Delegation.NoEscalation: assumes a relation that is neither transitive, nor a userset target, nor an arrow's far side, a schema without `&` and `-`, and a store of writable edges; `ActionsFed` looks only at the object's own type (core/reach/delegate.go:118-131).
- Walk.Satisfies: terms are keyed by value rather than by text; `MemoKeys.ChecksAreWellNamed` and `MemoKeys.MirrorKept` say when that is the same. A second walk over a text memo is not written out.
- Generator.GoodModelGetsItsSchema: asks for an organisation id on one line; an id that holds a newline writes further lines of schema text, which may parse or not.
- Resolver failures, cancelled contexts and the clock: the resolver is a fixed function for the duration of a query, the instant an integer parameter. How an instant is formatted in an edge's text is a parameter too.
- The mutex, slice aliasing and capacity growth of the in-memory store; map iteration order is left open wherever the source ranges over a map.
- The rest of the platform's schema text: only the declarations membership and reach rest on are written out (internal/accessmodel/schema.go:50-105).
- Error texts, line numbers and the order of warnings; which of several unresolved words or validation defects is reported first.
- Text is a sequence of code points; invalid UTF-8 and byte offsets are not modelled.
- `NormalizeActions` (core/automations/workflow.go:17-54): what validation needs of its result is stated on the normalised actions.
- `requireCanGrant` and `requireCanAssignRole` (internal/service/delegation.go:55-89, 153-159): one-step subset checks over the results modelled here.
- Postgres, the projection SQL, the resolver's row mapping, HTTP, webhooks, jobs and rendering are not part of this model.
