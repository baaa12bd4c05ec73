# A verified model of Treetop Core

Treetop Core wraps the Cedar authorizer: it partitions a policy source into namespace-owned stores, routes each
request to one store, derives labels on resources, replaces its policies while requests are being evaluated, and
lists the policies that could apply to a principal. This project models that logic in Dafny and proves what it is
for. Cedar itself stays outside: policies are data, conditions are an arbitrary function giving true, false or an
error for a request and an entity graph, and a small reference authorizer says what a policy set decides.

| module | what it models |
|---|---|
| `Prelude`, `Orders`, `Names` | trimming, sorting as the Rust library promises it, and qualified names as text |
| `Cedar` | policies, entity graphs, and the reference authorizer: scope match, forbid over permit, errors ignored |
| `NamespaceRouter` | the namespace trie, updated in place |
| `PolicyStore`, `StoreLayout` | layouts, ownership of names, references of a policy, routing of a request |
| `Partition` | the loop that distributes a source over stores |
| `Evaluation` | snapshots, entity graphs, one evaluation, its evidence |
| `Pinning` | when deciding in one store is deciding in the whole source |
| `Labels` | label registries over a mutable resource |
| `Listing` | the second, structural scope matcher and the deduplicating listing |
| `PolicyJson` | the order-insensitive compact JSON value |
| `Publication` | reloads, label updates, evaluations and sessions as interleaved steps on one atomic cell |
| `PublishedEngine` | that protocol filled with the engine's own compilation and evaluation |
| `UserScanner` | splitting a printed user from its group list |

Cedar names are sequences of segments; the namespace of a requested action is kept as the component texts a caller
gave, because routing looks those up. Evaluation, listing and pinning are stated for engines without a schema.
`Publication` covers both kinds of engine and keeps schema-enabled evaluation as a function it does not look into.

## What is proved

**Stores.** A layout is accepted exactly when its ids are distinct and no namespace is a prefix of another, and trie
lookup is then the scan for the one store whose namespace is a segment-wise prefix of a name. The distribution loop
succeeds under a stated condition on the source and places every policy as the rules say; its ambiguous,
inconsistent-global, missing-store and failed-add branches are dead (they are `assert false` in the methods).

**Meaning.** `docs/PolicyStores.md:8-11` calls stores an optimization that does not change authorization. The code
does not meet this for every source that loads. `Pinning` gives the exact condition, a syntactic test on each policy
that is not global, and proves that it holds if and only if every admissible request is decided from the same
satisfied policies as in the whole source, whatever the conditions do. `UnscopedAnnotationChangesMeaning` shows the
failing family at its smallest: an unscoped permit annotated `@treetop_store("dns")` no longer applies to requests of
the other store. The engine's own tests expect that (`src/engine/tests/stores.rs:172-195`), so the code is followed.

**Names.** An action may be built from joined components, such as the one component `Co::DNS`: the constructor checks
only the joined text (`src/types/qualified_id.rs:106-124`). Policies match such an action by its uid, and routing looks
its components up as they are (`src/policy_store.rs:331-333`) and finds nothing. The code and `docs/PolicyStores.md:119`
disagree there: a request on another store's resource is answered by that store instead of failing closed, and
`JoinedComponentChangesMeaning` gives the input. `ComponentsLeadToOwnerOrNowhere` says exactly when the components lead
to the store that owns the action: when none of those compared with its namespace is joined, which a caller can check
by looking for `::`. The pinning theorems are stated for both kinds of request. With joined components admitted, an
open policy is pinned by its actions only if each action's namespace is a single segment.

**Answers.** `Evaluation.EvaluationAnswers` says what an evaluation returns in terms of which policies apply to the
request, without the engine's own steps: the decision, the evidence, the forbids named and the version.
`EvaluationRefuses` gives each refusal its exact condition, and `PublishedEngine` carries the answer to every
evaluation of every run.

**Publication.** Every reachable state of every interleaving is a sequential log: each published state is its
predecessor with one change made to it, no label or schema update is lost, generations count states, evaluations and
sessions answer from what the cell held when they loaded it, every lost swap is paid for by somebody else's publish,
and a call ends within three actions per such publish and three more.

**Labels, listing, JSON, users.** Non-interference and idempotence of labelling for arbitrary deterministic
derivations; agreement of two independently written scope matchers; equality of JSON as equality of nested maps, and
hashing that loses nothing but what the words written for numbers lose; a scanner that inverts its printed form and
refuses exactly what the grammar says.

Equal JSON values hash alike, which is all that `Hash` promises. The converse is false: the word written for a number
does not say what kind of number it was, so the unequal values `0` and `0.0` make the same writes (`ZerosCollide`).
For any words at all, two values make the same writes if and only if they are equal once each number is replaced by
its word, so collisions come from numbers alone.

## Model

| member | source | states |
|---|---|---|
| NamespaceRouter.Router.FirstStoreIndex | src/policy_store.rs:138-144 | the recursive search of a subtree finds a store at or below the node, and one always exists below a valid node |
| NamespaceRouter.Router.Walk | src/policy_store.rs:107-113 | the loop of insert reaches the namespace's node, or stops at an overlapping store on the way with the trie unchanged |
| NamespaceRouter.Router.Insert | src/policy_store.rs:106-119 | a namespace is claimed exactly when it overlaps no owned one, otherwise the trie is unchanged and a truly overlapping store is returned; afterwards every non-root node has a store at or below it and stores are leaves |
| NamespaceRouter.Router.Resolve | src/policy_store.rs:121-130 | the cursor returns a store exactly when an owned namespace is a segment-wise prefix, and that namespace is unique |
| NamespaceRouter.Router.NothingBelowStore | src/policy_store.rs:137-145 | no node lies below a node that holds a store |
| Cedar.ActionSegments | src/types/qualified_id.rs:106-124 | the type an action's constructor makes has the segments of its components, each split on its own, and then `Action` |
| Names.QualifiedTextIsClean | src/types/qualified_id.rs:152-161 | the joined text of a namespace and a kind splits into segments exactly when every component does, and then into those |
| PolicyStore.OwnerIsUnique | src/policy_store.rs:105-134 | at most one store of a valid layout owns a name, so lookup does not depend on the order of the scan |
| PolicyStore.OwnerBelow | src/policy_store.rs:121-130 | the owner of a name owns everything below it |
| PolicyStore.RoutesExactly | src/policy_store.rs:326-355 | a request routes to a store exactly when the action's components or the resource type point there and neither points elsewhere; both errors are characterised too |
| PolicyStore.ComponentsLeadToOwnerOrNowhere | src/policy_store.rs:331-333 | the components lead to the store that owns the action's namespace if and only if none of those compared with that store's namespace is joined, and to no store otherwise |
| PolicyStore.PlainComponentsAreRoutedAsNamed | src/policy_store.rs:331-333 | components without a colon are the segments themselves, and route as named in every layout |
| PolicyStore.ReferencesAreMentions | src/policy_store.rs:384-427 | the recursive walk collects a type exactly when some subexpression, at any depth, is an entity literal or an `is` test of it |
| PolicyStore.PolicyReferencesAreMentions | src/policy_store.rs:254-307 | the references of a policy are the types its scope or any clause mentions |
| StoreLayout.PolicyStoreLayout.New | src/policy_store.rs:165-198 | accepts exactly the non-empty lists with distinct ids and pairwise non-overlapping namespaces, and names the reason for each refusal |
| StoreLayout.PolicyStoreLayout.WithGlobalPolicyIds | src/policy_store.rs:204-224 | refuses exactly when some id is blank; otherwise adds the ids and keeps the stores |
| StoreLayout.PolicyStoreLayout.Lookup | src/policy_store.rs:121-134 | trie lookup refines the linear scan over all stores |
| StoreLayout.PolicyStoreLayout.Route | src/policy_store.rs:326-355 | routing the components over the trie is the routing function that RoutesExactly characterises |
| StoreLayout.PolicyStoreLayout.PolicyCandidates | src/policy_store.rs:254-324 | gives the referenced stores when there is at most one, and names all of them otherwise |
| StoreLayout.CollectExprReferences | src/policy_store.rs:384-427 | the accumulating walk appends exactly the references of the expression, in order |
| Partition.TargetIndexes | src/engine.rs:277-335 | a policy's targets are all stores if global, its one store if local, and it is refused exactly when it is neither, for the reason the error gives |
| Partition.PartitionPolicySet | src/engine.rs:267-366 | succeeds exactly when every policy is assignable and every registered id annotates one, and then store `i` holds exactly the policies installed in it; missing ids are reported exactly, any other refusal is explained by a policy of the source |
| Partition.ExplainedRefusalsAreJustified | src/engine.rs:276-335 | each error kind, read as a statement about the policy, rules out every assignment |
| Partition.LocalStoreIsUnique | src/engine.rs:303-335 | a policy is local to one store at most, and never both local and global |
| Partition.EveryPolicyIsPlaced | src/engine.rs:337-349 | after a load each policy is in every store if global and in exactly one otherwise, unchanged |
| Partition.LocalPoliciesStayInside | src/policy_store.rs:254-324 | no local policy mentions, at any depth, a type owned by another store |
| Pinning.ScopeOnRequestGraph | src/engine.rs:468-529 | on the graph built for a request, Cedar scopes reduce to comparisons with the principal, its groups, the action and the resource |
| Pinning.ImpossibleScopesDoNotMatch | src/engine.rs:468-529 | scopes that would need one uid in two roles, or a principal type that is no principal, match no request |
| Pinning.PinnedRequestsStay | src/policy_store.rs:326-355 | a request of the kind asked for that matches a pinned policy and routes at all routes to that policy's store |
| Pinning.UnpinnedPoliciesEscape | src/policy_store.rs:326-355 | an unpinned policy has an admissible, matching request of that kind that routes to another store; the proof builds it, joining components where that is what it takes |
| Pinning.StoreSatisfiesItsShare | src/engine.rs:337-349 | unconditionally, a store's satisfied policies are the source's restricted to those installed in it |
| Pinning.PartitionPreservesMeaningExactlyWhenPinned | docs/PolicyStores.md:8-11 | for requests whose action routes as named, and for all requests with the stricter test: all local policies are pinned if and only if every such request is decided from the same satisfied policies as in the whole source |
| Pinning.PinnedEngineEvaluatesLikeMonolithic | src/engine.rs:1023-1108 | a pinned partitioned engine gives the monolithic engine's decision, evidence, forbid ids and version for every request of that kind that routes |
| Pinning.MissedPolicyShowsUnlessMasked | src/engine.rs:1023-1108 | a store that misses a satisfied policy gives the source's response if and only if forbids decide and it misses none of them |
| Pinning.UnpinnedPoliciesChangeAnswers | src/engine.rs:1023-1108 | at the request that escapes it an unpinned policy changes the response, unless it is a permit and forbids without conditions apply that the store has, all of them |
| Pinning.AnswersAgreeExactlyWhenMasked | docs/PolicyStores.md:8-11 | in any source, every response is kept if and only if an unpinned policy is missed only where it is a permit and forbids without conditions, all of them in the store, decide |
| Pinning.AnswersAgreeExactlyWhenPinned | docs/PolicyStores.md:8-11 | in a source whose forbids all carry conditions, pinning is exactly what keeps every response |
| Pinning.UnscopedAnnotationChangesMeaning | src/engine/tests/stores.rs:172-195 | a concrete source that loads and whose annotated unscoped permit stops applying to the other store's requests |
| Pinning.JoinedComponentChangesMeaning | docs/PolicyStores.md:119 | a concrete pinned permit and a request naming its action by a joined component: the source allows it, the code routes it past the policy and denies it, and named by segments it fails closed |
| Evaluation.BuildSnapshot | src/engine.rs:222-260 | succeeds exactly when permits serialize and the source partitions; the snapshot then has metadata for exactly the source's permits and forbids |
| Evaluation.GraphReachability | src/engine.rs:468-529 | in a request's graph one entity is in another exactly when they are equal or the principal is in one of its groups |
| Evaluation.BuildEntityGraph | src/engine.rs:468-529 | the group loop builds a graph exactly when no uid has two roles, and then the one graph in which only the principal has parents, its groups, and only the resource has attributes, all that it carries with `id` its own |
| Evaluation.EntityGraphIsUnique | src/engine.rs:468-529 | only one graph answers that description |
| Evaluation.ChosenSetIsFromSource | src/engine.rs:131-144 | the set chosen for a request holds only source policies, and choosing never fails but by routing |
| Evaluation.EvaluationAnswers | src/engine.rs:1023-1108 | in the set of the store the request points at, on the graph of the resource with its derived outputs: Allow if and only if no forbid applies and some permit does, with exactly one record (text, JSON, `@id`, Cedar's id) per permit that applies; otherwise Deny, naming exactly the forbids that apply; with the state's revision, label version and generation |
| Evaluation.EvaluationRefuses | src/engine.rs:1023-1030 | every refusal and exactly when it is made: no owner, two owners, or a uid in two roles; routing is refused first |
| Evaluation.EvidenceIsComplete | src/engine.rs:370-404 | an Allow carries one record per determining permit, a Deny exactly the determining forbid ids, sorted without repetition |
| Evaluation.EvaluationNeverLosesEvidence | src/types/decision.rs:377-393 | the fail-closed error and the missing-store error are unreachable for every snapshot a constructor builds |
| Evaluation.EvidenceIdsIgnoreOrder | src/types/decision.rs:112-116 | the reported ids are sorted, keep repetitions and do not depend on the order Cedar gives its reasons in |
| Evaluation.IdsOfEach | src/types/decision.rs:47-55 | each permit is shown by its `@id`, or else by Cedar's id |
| Evaluation.OwnedAttributesDoNotMatter | src/engine.rs:417-429 | two requests whose resources differ only in attributes the registry owns are evaluated alike |
| Evaluation.CanonicalIdCannotBeForged | src/types/resource.rs:219-231 | what a caller puts under `id` reaches a decision only through what labelers derive from it |
| Labels.UnownedAttributesSurvive | src/labels.rs:317-336 | labelling changes no unowned attribute, no identity and no resource of an untargeted type |
| Labels.NonInterference | src/labels.rs:317-336 | resources of one identity that agree on unowned attributes end with identical attributes, for any derivations |
| Labels.Idempotent | src/labels.rs:317-336 | labelling twice is labelling once |
| Labels.ApplyIsTheLabelling | src/labels.rs:328-335 | the result of clearing and deriving in order is the one labelling in which each owned attribute is what its labeler derives from the unowned attributes and the outputs before it |
| Labels.ApplyIsLabelledBy | src/labels.rs:317-336 | the registry's result is the one resource of that identity that keeps every unowned attribute and has each owned one as derived |
| Labels.MutableResource.constructor | src/labels.rs:313-314 | a clone holds the value it was made from |
| Labels.ApplyRegistered | src/labels.rs:293-302 | in place, one labeler replaces or removes its own output only |
| Labels.ApplyAlone | src/labels.rs:171-182 | a labeler applied alone leaves resources of other types unchanged |
| Labels.ApplyScopeInPlace | src/labels.rs:328-335 | the two loops over the attribute map compute the scope's labelling |
| Labels.ApplyRegistry | src/labels.rs:322-326 | the registry applied in place is the function of the non-interference theorem |
| Labels.ApplyToCloneIfApplicable | src/labels.rs:311-316 | gives a labelled copy exactly when the type has labelers, which is otherwise the resource itself |
| Labels.Build | src/labels.rs:398-424 | builds exactly when the version is not blank and no target is declared twice; the scope of each type is then all of its labelers, each once, in the order of registration, and no two own one attribute |
| Labels.OfTypeKeepsOrder | src/labels.rs:398-424 | positions that pick, in increasing order, every labeler of a type and no other |
| Labels.BuiltScopesHaveDistinctOutputs | src/labels.rs:398-424 | in a registry that builds no attribute of a type has two owners |
| PolicyJson.EqualityIsMeaning | src/types/policy_json.rs:50-60 | the one-directional linear search holds exactly when both values denote equal nested values with objects as maps |
| PolicyJson.EqualityIsAnEquivalence | src/types/policy_json.rs:50-60 | that equality is reflexive, symmetric and transitive at every depth |
| PolicyJson.EqualValuesHashAlike | src/types/policy_json.rs:62-70 | equal values feed the hasher identical sequences, whatever words numbers write |
| PolicyJson.FeedsAgreeUpToWords | src/types/policy_json.rs:36-70 | for any words, two values make the same writes if and only if they are equal once every number is replaced by its word |
| PolicyJson.HashFeedDecidesEquality | src/types/policy_json.rs:36-70 | where words tell the numbers of two values apart, they make the same writes if and only if they are equal |
| PolicyJson.CollisionsComeFromNumbers | src/types/policy_json.rs:36-70 | unequal values that make the same writes hold different numbers with the same word |
| PolicyJson.ZerosCollide | src/types/policy_json.rs:36-42 | the integer and the floating zero are unequal and make the same writes |
| PolicyJson.ToValueInvertsFromValue | src/types/policy_json.rs:72-110 | materializing a converted value gives the value back, order included |
| PolicyJson.FromValueInvertsToValue | src/types/policy_json.rs:72-110 | converting a materialized value gives the compact value back |
| PolicyJson.ConversionKeepsMeaning | src/types/policy_json.rs:72-88 | conversion keeps what a value denotes |
| Listing.ForUser | src/query.rs:17-34 | succeeds exactly for non-empty names and a namespace whose components split into identifiers, names each refusal, and asks what the equivalent user principal asks |
| Listing.ForGroup | src/query.rs:36-47 | likewise for a group |
| Listing.TypedUidIsQualified | src/types/entity_uid.rs:7-49 | the uid made from an id, components and a kind, and the exact condition of each refusal |
| Listing.FromPrincipal | src/query.rs:49-75 | collects the principal's groups, or the group itself, as parents |
| Listing.MatcherAgreesWithAuthorizer | src/policy_match.rs:6-86 | for every admissible request a policy passes the matchers exactly when its Cedar scope holds on the request's graph and the effect filter admits it |
| Listing.MatcherIsExact | src/policy_match.rs:6-86 | for every query, with or without an action and a resource, a policy is matched exactly when its effect is admitted, its principal constraint holds and the others hold for the parts that are present; the reasons are the forms of those constraints |
| Listing.PartsAgreeWithAuthorizer | src/engine.rs:1158-1171 | asked about a request in part, the matchers agree with the Cedar scopes of the parts that are asked about |
| Listing.ListPolicies | src/engine.rs:1297-1352 | listing gives the source's matching policies in id order with sorted reasons and candidate actions, however the source is spread over stores |
| Listing.ListingIsExact | src/engine.rs:1297-1352 | who is in a listing and which reasons stand beside each policy, said without the matchers, for every query |
| Listing.ReasonsAreOrderedAsDeclared | src/types/user_policies.rs:19-33 | reasons are ordered as they are declared |
| Listing.ListingIsUnique | src/engine.rs:1297-1352 | a source has one listing per query, so partitioned and monolithic engines list alike |
| Listing.NewWithMatches | src/types/user_policies.rs:73-123 | for any policies with any reasons: a stable order by id, each policy's reasons sorted and without repetition, and each action that a permit names listed once |
| Listing.ReasonsAreCanonical | src/types/user_policies.rs:84-85 | sorting and deduplicating keeps exactly the reasons there were, each once |
| Orders.SortIsStable | src/types/user_policies.rs:77-79 | sorting keeps the order of elements that share a key |
| Orders.StringLeqIsLexicographic | src/types/user_policies.rs:77-79 | ids are compared by their first difference, a prefix coming first |
| Listing.AllowEvidenceIsListed | src/engine.rs:1183-1215 | every permit in an Allow's evidence is listed for the same request |
| Listing.Policies | src/engine.rs:1355-1372 | gives each source policy exactly once, in id order when the engine is partitioned |
| Publication.InitialIsInvariant | src/engine.rs:600-610 | the state a constructor leaves satisfies the invariant |
| Publication.ActionKeepsInvariant | src/engine.rs:699-788 | every atomic action of every thread keeps the invariant: the history is a sequential log, held states were published, unpublished snapshots are private, counters are paid for |
| Publication.RunKeepsInvariant | src/engine.rs:699-788 | hence every state of every run satisfies it |
| Publication.RunExtends | src/engine.rs:570-585 | nothing published or recorded is taken back, and sessions never change |
| Publication.WonSwapFollows | src/engine.rs:776-788 | a swap that succeeds does to the state it replaces exactly what its change does alone |
| Publication.NoUpdateIsLost | src/engine.rs:699-788 | each published state holds the last registry put and the last text compiled against the last schema given, for the original layout |
| Publication.GenerationsCountStates | src/engine.rs:699-708 | the n-th published state has generation min(n, 2^64-1) |
| Publication.GenerationIdentifiesState | src/engine.rs:196-207 | below saturation equal generations mean the same published state, at any two moments of a run |
| Publication.ReloadKeepsCurrentSchema | src/engine.rs:714-743 | a plain reload that wins keeps the schema, layout and labels of the state it replaces, also when it reuses a compiled snapshot |
| Publication.LayoutAndModeNeverChange | src/engine.rs:1377-1401 | no run changes the layout or whether there is a schema, so the layout read early by a schema reload is current |
| Publication.LostSwapKeepsSound | src/engine.rs:727-742 | each lost swap has a distinct publish by another thread, and each recompilation a publish of policies |
| Publication.NewSnapshotMeansPolicyChange | src/engine.rs:730-741 | another snapshot means a change of policies in between |
| Publication.AddressesTellUpdatesApart | src/engine.rs:727-735 | in every run, two published states have the same snapshot address if and only if only labels changed between them |
| Publication.FinishedCallsAreAccounted | src/engine.rs:714-752 | a finished writer published exactly once, within its call, or not at all when compilation failed; lost swaps, compilations and steps are bounded by what others published |
| Publication.UnfinishedCallsAreBounded | src/engine.rs:714-752 | a call under way has taken at most three steps per publish by others, and three more |
| Publication.StepsAreCounted | src/engine.rs:714-752 | a thread's own action advances or ends its call, and no other action touches it |
| Publication.CallsCanProceed | src/engine.rs:714-752 | a call under way always has a step to take |
| Publication.CallsEnd | src/engine.rs:714-752 | along any run, a thread that has taken more than three actions per state published that its call had not seen, and three more, has left the call |
| Publication.CallsEndOnceOthersStop | src/engine.rs:714-752 | counted from the first action of a call, more than three actions per publish by others, and three more, end it |
| Publication.EvaluationsAreCoherent | src/engine.rs:1013-1022 | every evaluation of every run answers from one published state current during the call |
| Publication.EvaluationsAnswerWithinCall | src/engine.rs:1013-1022 | an evaluation that finishes answers the request it was begun with, from what the cell held at its one load between the two ends of the call |
| Publication.WritersPublishTheirChange | src/engine.rs:714-788 | a writer that leaves its call has published exactly the change it was begun with on the state it replaces, or nothing, and then some state current since it began does not let its text compile |
| PublishedEngine.EngineWorldIsValid | src/engine.rs:222-260 | what the protocol assumes of compilation holds of the engine's |
| PublishedEngine.EvaluationsReportTheirState | src/engine.rs:1013-1108 | in a schema-free engine that answer reports the state's own version, whose generation is its place in the log, and never lacks evidence |
| PublishedEngine.PublishedEvaluationsAnswer | src/engine.rs:1013-1108 | in every run of a schema-free engine, each evaluation answers what the policies that apply in its published state make it answer |
| PublishedEngine.EngineCallsCanProceed | src/engine.rs:714-752 | no call of the engine is stuck at any moment of any run |
| Publication.SessionsAreFrozen | src/engine.rs:1416-1455 | a session reports one version and answers alike forever, from one published state |
| Publication.SessionsHoldTheCurrentState | src/engine.rs:799-804 | that state is the one in the cell when the session is made: every later answer and version is of it |
| Publication.AskingAnswers | src/engine.rs:1416-1455 | each question put to a session adds one answer, to that request |
| UserScanner.ScanInput | src/types/user.rs:131-161 | the character loop with its two flags stops where the grammar's scan stops |
| UserScanner.ScanFindsFirstBracket | src/types/user.rs:135-161 | the scan stops at exactly the first bracket that has a well-formed user text before it |
| UserScanner.SplitUserAndGroups | src/types/user.rs:129-190 | the method computes the split the theorems below are about |
| UserScanner.SplitInvertsPrint | src/types/user.rs:129-190 | splitting a trimmed user text followed by a bracketed list of names gives back that text and those names, with any blanks after the commas; group lists print with one space (`src/types/group.rs:110-121`) |
| UserScanner.AcceptsGroupsExactly | src/types/user.rs:163-190 | groups are found exactly where a user text is followed by one bracketed list without an empty name |
| UserScanner.AcceptsWithoutGroupsExactly | src/types/user.rs:163-179 | a user without groups is the whole trimmed input, where no user text is followed by a bracket, or what stands before a blank list |
| UserScanner.RefusesExactly | src/types/user.rs:148-190 | the input is refused exactly where a user text is followed by a closing bracket or a malformed list |
| UserScanner.RefusalsSayWhy | src/types/user.rs:148-190 | which refusal it is, from what stands at the first bracket |
| UserScanner.AcceptedUsersReprint | src/types/user.rs:129-190 | whatever is accepted with groups prints to a form that splits the same way |

## Left out

- Cedar itself: parsing, schema validation, condition evaluation and extension functions are parameters; templates and linked policies are absent because only static policies are iterated.
- Evaluation without diagnostics: it is the same evaluation with the forbid ids dropped.
- Schema-enabled evaluation, listing and pinning: a schema adds entities and action hierarchies that are not visible in the repository.
- Request context conversion: its errors and its merge are absent; a request carries its final context.
- Distinct principal, resource and group uids: the engine's graph fails to build otherwise, which is the DuplicateEntity answer here.
- Validation of store ids, names and label targets: identities are taken as already validated, non-empty where their constructors demand it. Of Cedar's identifiers requests and layouts use only that they are not empty and hold no colon; queries take the whole rule as a parameter.
- Attributes that Cedar's entity constructor refuses (`src/engine.rs:502`): that error is absent, attributes are taken as accepted.
- Hash iteration order: sets are visited in an arbitrary order, which the proofs do not fix; uids are compared by an arbitrary total order.
- SHA-256, load times and hexadecimal text: a revision is an opaque value.
- Annotation ids read from policy text or JSON lines (`src/types/decision.rs:57-84`): the annotation itself is used.
- Regular expressions: a labeler derives by an arbitrary deterministic function, so a labeler with hidden state is outside the model.
- Display text, wire formats, error wording, metrics, tracing and timers: only the kind of an error is kept.
- `User` parsing past the split, thin constructors, by-name accessors of candidates and `has_non_scope_constraints`: wrappers.
- The words serde_json writes for numbers: a parameter, except that both zeros write 0; hasher writes are tokens, and the bytes they become are not modelled.
- Expression forms that the reference walk ignores are one leaf constructor.
- Memory ordering of the atomic cell: its load and compare-and-swap are single steps, and an address is not reused while it can still be compared.
- UserScanner.ScanInput: positions count characters, not bytes; every cut is at a one-byte delimiter, so the pieces are the same.
