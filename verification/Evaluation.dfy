/**
 From a compiled snapshot and a request to a decision (`src/engine.rs`, `src/loader.rs`, `src/types/decision.rs`),
 for engines without a schema.
 */
module Evaluation {
  import opened Prelude
  import opened Orders
  import opened Cedar
  import opened PolicyStore
  import opened StoreLayout
  import opened Partition
  import Labels

  // ---------- Snapshots ----------

  datatype PolicySets = Monolithic(policies: PolicySet) | Scoped(layout: Layout, stores: seq<PolicySet>)

  datatype PermitPolicy = PermitPolicy(literal: string, json: string, annotationId: Option<string>, cedarId: PolicyId) {
    function Id(): string {
      match annotationId
      case Some(id) => id
      case None => cedarId
    }
  }

  datatype PolicySnapshot = PolicySnapshot(
    sets: PolicySets,
    revision: string,
    permits: map<PolicyId, PermitPolicy>,
    forbids: map<PolicyId, string>)

  datatype SnapshotError = Unserializable(policy: PolicyId) | BadPartition(error: PartitionError)

  function PermitMetadata(p: Policy): PermitPolicy
    requires p.json.Some?
  {
    PermitPolicy(p.literal, p.json.value, p.Annotation(ID_ANNOTATION), p.id)
  }

  function ForbidId(p: Policy): string {
    match p.Annotation(ID_ANNOTATION)
    case Some(id) => id
    case None => p.id
  }

  ghost predicate Serializable(source: PolicySet) {
    forall id | id in source && source[id].effect == Permit :: source[id].json.Some?
  }

  ghost predicate HasMetadataOf(snapshot: PolicySnapshot, source: PolicySet) {
    && Serializable(source)
    && snapshot.permits == (map id | id in source && source[id].effect == Permit :: PermitMetadata(source[id]))
    && snapshot.forbids == (map id | id in source && source[id].effect == Forbid :: ForbidId(source[id]))
  }

  /** The policy sets a constructor can leave behind for a source. */
  ghost predicate SetsOf(sets: PolicySets, source: PolicySet) {
    match sets
    case Monolithic(policies) => policies == source
    case Scoped(layout, stores) =>
      ValidLayout(layout) && Partitionable(layout, source) && IsPartition(layout, source, stores)
  }

  ghost predicate SnapshotOf(snapshot: PolicySnapshot, source: PolicySet) {
    KeyedById(source) && HasMetadataOf(snapshot, source) && SetsOf(snapshot.sets, source)
  }

  /** PolicySnapshot construction: metadata first, then the partition when there is a layout. */
  method BuildSnapshot(source: PolicySet, layout: PolicyStoreLayout?, revision: string)
    returns (r: Result<PolicySnapshot, SnapshotError>)
    requires KeyedById(source) && (layout != null ==> layout.Valid())
    ensures r.Ok? <==> Serializable(source) && (layout != null ==> Partitionable(layout.Value(), source))
    ensures r.Ok? ==> SnapshotOf(r.value, source) && r.value.revision == revision
    ensures r.Ok? ==> (if layout == null then r.value.sets == Monolithic(source)
                       else r.value.sets.Scoped? && r.value.sets.layout == layout.Value())
    ensures r.Err? ==>
      match r.error
      case Unserializable(id) => id in source && source[id].effect == Permit && source[id].json == None
      case BadPartition(_) => Serializable(source) && layout != null
  {
    if id :| id in source && source[id].effect == Permit && source[id].json == None {
      return Err(Unserializable(id));
    }
    var permits := map id | id in source && source[id].effect == Permit :: PermitMetadata(source[id]);
    var forbids := map id | id in source && source[id].effect == Forbid :: ForbidId(source[id]);
    if layout == null {
      return Ok(PolicySnapshot(Monolithic(source), revision, permits, forbids));
    }
    var stores := PartitionPolicySet(layout, source);
    if stores.Err? {
      return Err(BadPartition(stores.error));
    }
    var value := Layout(layout.stores, layout.globalPolicyIds);
    return Ok(PolicySnapshot(Scoped(value, stores.value), revision, permits, forbids));
  }

  // ---------- Engine states ----------

  datatype EngineState = EngineState(policy: PolicySnapshot, labels: Option<Labels.LabelRegistry>, generation: nat)

  datatype PolicyVersion = PolicyVersion(revision: string, labelSet: Option<string>, generation: nat)

  function Version(state: EngineState): PolicyVersion {
    PolicyVersion(
      state.policy.revision,
      if state.labels.Some? then state.labels.value.version else None,
      state.generation)
  }

  // ---------- One evaluation ----------

  datatype EvaluationError =
    | Routing(error: RoutingError)
    | MissingStore(index: nat)
    | DuplicateEntity
    | AllowWithoutEvidence

  datatype Decision = Allow(policies: set<PermitPolicy>, version: PolicyVersion) | Deny(version: PolicyVersion)

  datatype DecisionDiagnostics = DecisionDiagnostics(decision: Decision, forbidIds: seq<string>)

  function Resolve(sets: PolicySets, request: Request): Result<PolicySet, EvaluationError> {
    match sets
    case Monolithic(policies) => Ok(policies)
    case Scoped(layout, stores) =>
      match ResolveRequest(layout, request.action, request.resource.uid.ty)
      case Err(e) => Err(Routing(e))
      case Ok(index) => if index < |stores| then Ok(stores[index]) else Err(MissingStore(index))
  }

  function LabelledResource(state: EngineState, r: Resource): Resource {
    if state.labels.Some? then Labels.Apply(state.labels.value, r) else r
  }

  function GroupSet(p: Principal): set<Uid> {
    set g | g in p.Groups()
  }

  /** Groups without parents, the principal below its groups, the resource with its canonical id. */
  function BuildEntities(principal: Principal, resource: Resource): Result<Entities, EvaluationError> {
    var groups := GroupSet(principal);
    if principal.uid in groups || resource.uid in groups || resource.uid == principal.uid then Err(DuplicateEntity)
    else
      var parents := (map g | g in groups :: {})[principal.uid := groups][resource.uid := {}];
      var canonical := resource.attrs["id" := StringValue(resource.uid.id)];
      var attrs := (map u | u in parents :: map[])[resource.uid := canonical];
      Ok(Entities(parents, attrs))
  }

  ghost predicate IsGroupOf(g: Uid, p: Principal) {
    match p
    case User(_, groups) => g in groups
    case Group(_) => false
  }

  /** No uid plays two of the roles of principal, group and resource. */
  ghost predicate RolesDistinct(principal: Principal, resource: Uid) {
    principal.uid != resource && !IsGroupOf(principal.uid, principal) && !IsGroupOf(resource, principal)
  }

  /**
   The graph of a request: its entities are the principal, its groups and the resource; only the principal has
   parents, its groups; only the resource has attributes, all that it carries with `id` as its own id.
   */
  ghost predicate IsEntityGraph(graph: Entities, principal: Principal, resource: Resource) {
    && (forall u :: u in graph.parents <==> u == principal.uid || u == resource.uid || IsGroupOf(u, principal))
    && (forall u :: u in graph.attrs <==> u in graph.parents)
    && (forall g :: g in graph.parents[principal.uid] <==> IsGroupOf(g, principal))
    && (forall u | u in graph.parents && u != principal.uid :: graph.parents[u] == {})
    && (forall u | u in graph.attrs && u != resource.uid :: graph.attrs[u] == map[])
    && resource.uid in graph.attrs
    && var attrs := graph.attrs[resource.uid];
       && "id" in attrs && attrs["id"] == StringValue(resource.uid.id)
       && forall a | a != "id" ::
            (a in attrs <==> a in resource.attrs) && (a in attrs ==> attrs[a] == resource.attrs[a])
  }

  lemma BuiltGraphIsEntityGraph(principal: Principal, resource: Resource)
    ensures BuildEntities(principal, resource).Ok? <==> RolesDistinct(principal, resource.uid)
    ensures BuildEntities(principal, resource).Err? ==> BuildEntities(principal, resource).error == DuplicateEntity
    ensures BuildEntities(principal, resource).Ok? ==>
      IsEntityGraph(BuildEntities(principal, resource).value, principal, resource)
  {
    assert forall g :: g in GroupSet(principal) <==> IsGroupOf(g, principal);
  }

  lemma EntityGraphIsUnique(a: Entities, b: Entities, principal: Principal, resource: Resource)
    requires IsEntityGraph(a, principal, resource) && IsEntityGraph(b, principal, resource)
    ensures a == b
  {
    forall u | u in a.parents ensures a.parents[u] == b.parents[u] {
      assert u in b.parents;
      if u == principal.uid {
        assert forall g :: g in a.parents[u] <==> g in b.parents[u];
      }
    }
    assert a.parents == b.parents;
    assert a.attrs[resource.uid] == b.attrs[resource.uid];
    assert forall u | u in a.attrs :: a.attrs[u] == b.attrs[u];
    assert a.attrs == b.attrs;
  }

  /** build_entities: groups are collected one by one, and a uid in two roles is refused by Cedar. */
  method BuildEntityGraph(principal: Principal, resource: Resource) returns (r: Result<Entities, EvaluationError>)
    ensures r == BuildEntities(principal, resource)
    ensures r.Ok? <==> RolesDistinct(principal, resource.uid)
    ensures r.Ok? ==> IsEntityGraph(r.value, principal, resource)
  {
    r := BuildFromGroups(principal, resource);
    BuiltGraphIsEntityGraph(principal, resource);
  }

  method BuildFromGroups(principal: Principal, resource: Resource) returns (r: Result<Entities, EvaluationError>)
    ensures r == BuildEntities(principal, resource)
  {
    var groups: set<Uid> := {};
    var listed := principal.Groups();
    for k := 0 to |listed|
      invariant groups == set g | g in listed[..k]
    {
      groups := groups + {listed[k]};
      TakeOneMore(listed, k);
    }
    assert listed[..|listed|] == listed;
    if principal.uid in groups || resource.uid in groups || resource.uid == principal.uid {
      return Err(DuplicateEntity);
    }
    var parents: map<Uid, set<Uid>> := map g | g in groups :: {};
    var attrs: map<Uid, Attributes> := map g | g in groups :: map[];
    parents, attrs := parents[principal.uid := groups], attrs[principal.uid := map[]];
    parents := parents[resource.uid := {}];
    attrs := attrs[resource.uid := resource.attrs["id" := StringValue(resource.uid.id)]];
    ghost var graph := BuildEntities(principal, resource).value;
    assert groups == GroupSet(principal);
    assert parents == graph.parents;
    assert attrs == graph.attrs;
    r := Ok(Entities(parents, attrs));
  }

  function ToCedarRequest(r: Request): CedarRequest {
    CedarRequest(r.principal.uid, r.action.uid, r.resource.uid, r.context)
  }

  ghost function ExtractPermits(snapshot: PolicySnapshot, response: Response): set<PermitPolicy> {
    if !response.allow then {}
    else set id | id in response.reasons && id in snapshot.permits :: snapshot.permits[id]
  }

  ghost function ExtractForbids(snapshot: PolicySnapshot, response: Response): seq<string> {
    if response.allow then []
    else
      var names := set id | id in response.reasons && id in snapshot.forbids :: snapshot.forbids[id];
      SortDedup(Enumerate(names), StringLeq)
  }

  ghost function FromCedar(allow: bool, policies: set<PermitPolicy>, version: PolicyVersion)
    : Result<Decision, EvaluationError>
  {
    if !allow then Ok(Deny(version))
    else if policies == {} then Err(AllowWithoutEvidence)
    else Ok(Allow(policies, version))
  }

  ghost function EvaluateState(state: EngineState, request: Request, cond: Conditions)
    : Result<DecisionDiagnostics, EvaluationError>
  {
    match Resolve(state.policy.sets, request)
    case Err(e) => Err(e)
    case Ok(policies) =>
      match BuildEntities(request.principal, LabelledResource(state, request.resource))
      case Err(e) => Err(e)
      case Ok(graph) => Conclude(state, IsAuthorized(policies, ToCedarRequest(request), graph, cond))
  }

  /** From Cedar's response to the engine's answer. */
  ghost function Conclude(state: EngineState, response: Response): Result<DecisionDiagnostics, EvaluationError> {
    match FromCedar(response.allow, ExtractPermits(state.policy, response), Version(state))
    case Err(e) => Err(e)
    case Ok(decision) => Ok(DecisionDiagnostics(decision, ExtractForbids(state.policy, response)))
  }

  // ---------- The entity graph ----------

  /** Reachability in a request's graph is equality, or membership of the principal in one of its groups. */
  lemma GraphReachability(principal: Principal, resource: Resource, a: Uid, b: Uid)
    requires BuildEntities(principal, resource).Ok?
    ensures InHierarchy(BuildEntities(principal, resource).value, a, b) <==>
      a == b || (a == principal.uid && b in GroupSet(principal))
  {
    var graph := BuildEntities(principal, resource).value;
    if InHierarchy(graph, a, b) {
      var path :| IsPath(graph, path, a, b);
      if |path| >= 2 {
        assert path[1] in graph.parents[path[0]];
        var n := if |path| == 2 then 1 else 2;
        assert path[n] in graph.parents[path[n - 1]];
      }
    }
    if a == b { assert IsPath(graph, [a], a, b); }
    if a == principal.uid && b in GroupSet(principal) { assert IsPath(graph, [a, b], a, b); }
  }

  // ---------- Evidence ----------

  /** The set chosen for a request holds only policies of the source, as they are there. */
  lemma ChosenSetIsFromSource(sets: PolicySets, source: PolicySet, request: Request)
    requires SetsOf(sets, source)
    ensures sets.Monolithic? ==> Resolve(sets, request).Ok?
    ensures sets.Scoped? ==>
      (Resolve(sets, request).Ok? <==> ResolveRequest(sets.layout, request.action, request.resource.uid.ty).Ok?)
    ensures Resolve(sets, request).Err? ==> Resolve(sets, request).error.Routing?
    ensures var chosen := Resolve(sets, request);
      chosen.Ok? ==> forall id | id in chosen.value :: id in source && chosen.value[id] == source[id]
  {
    if sets.Scoped? {
      RoutesExactly(sets.layout, request.action, request.resource.uid.ty);
    }
  }

  /**
   For every snapshot the constructors build and every set a request can select, an Allow carries one metadata
   record per determining permit and a Deny names every determining forbid, sorted and without repetition.
   */
  lemma EvidenceIsComplete(snapshot: PolicySnapshot, source: PolicySet, chosen: PolicySet,
                           r: CedarRequest, graph: Entities, cond: Conditions)
    requires SnapshotOf(snapshot, source)
    requires forall id | id in chosen :: id in source && chosen[id] == source[id]
    ensures var response := IsAuthorized(chosen, r, graph, cond);
      && (response.allow ==>
            && response.reasons != {} && response.reasons <= snapshot.permits.Keys
            && |ExtractPermits(snapshot, response)| == |response.reasons|
            && forall id | id in response.reasons :: snapshot.permits[id] in ExtractPermits(snapshot, response))
      && (!response.allow ==>
            && response.reasons <= snapshot.forbids.Keys
            && StrictlyAscending(ExtractForbids(snapshot, response), StringLeq)
            && forall name :: name in ExtractForbids(snapshot, response) <==>
                 exists id :: id in response.reasons && ForbidId(source[id]) == name)
  {
    var response := IsAuthorized(chosen, r, graph, cond);
    StringOrder();
    if response.allow {
      assert forall id | id in response.reasons :: snapshot.permits[id].cedarId == id;
      EvidenceCount(snapshot.permits, response.reasons);
      assert ExtractPermits(snapshot, response) == set id | id in response.reasons :: snapshot.permits[id];
    } else {
      var names := set id | id in response.reasons && id in snapshot.forbids :: snapshot.forbids[id];
      SortDedupCanonical(Enumerate(names), StringLeq);
      forall name ensures name in names <==> exists id :: id in response.reasons && ForbidId(source[id]) == name {
        if id :| id in response.reasons && ForbidId(source[id]) == name {
          assert snapshot.forbids[id] == name;
        }
      }
    }
  }

  lemma {:induction false} EvidenceCount(permits: map<PolicyId, PermitPolicy>, ids: set<PolicyId>)
    requires ids <= permits.Keys && forall id | id in ids :: permits[id].cedarId == id
    ensures |set id | id in ids :: permits[id]| == |ids|
  {
    var records := set id | id in ids :: permits[id];
    if ids == {} {
    } else {
      var one :| one in ids;
      var rest := ids - {one};
      EvidenceCount(permits, rest);
      var others := set id | id in rest :: permits[id];
      assert permits[one] !in others;
      assert records == others + {permits[one]};
    }
  }

  // ---------- What an evaluation answers ----------

  /** The set a request is decided in: the only one, or that of the one store the request points at. */
  ghost predicate IsChosen(sets: PolicySets, r: Request, chosen: PolicySet) {
    match sets
    case Monolithic(policies) => chosen == policies
    case Scoped(layout, stores) =>
      exists i: nat :: i < |stores| && stores[i] == chosen
        && PointsAt(layout, r.action, r.resource.uid.ty, i)
        && forall j: nat :: PointsAt(layout, r.action, r.resource.uid.ty, j) ==> j == i
  }

  /** The resource as Cedar sees it: with every output of a registry that was built, or as requested. */
  ghost predicate IsPrepared(state: EngineState, r: Resource, labelled: Resource) {
    match state.labels
    case None => labelled == r
    case Some(registry) =>
      Labels.DistinctOutputs(Labels.Scope(registry, r.uid.ty)) && Labels.IsLabelledBy(registry, r, labelled)
  }

  ghost predicate Applies(p: Policy, r: Request, graph: Entities, cond: Conditions) {
    Satisfied(p, CedarRequest(r.principal.uid, r.action.uid, r.resource.uid, r.context), graph, cond)
  }

  ghost predicate AppliesWith(effect: Effect, chosen: PolicySet, id: PolicyId,
                              r: Request, graph: Entities, cond: Conditions)
  {
    id in chosen && chosen[id].effect == effect && Applies(chosen[id], r, graph, cond)
  }

  /** The record of a permit: its text, its JSON, its `@id` if it has one, and Cedar's id. */
  ghost predicate IsRecordOf(record: PermitPolicy, p: Policy) {
    && record.literal == p.literal && p.json == Some(record.json)
    && record.annotationId == p.Annotation("id") && record.cedarId == p.id
  }

  /** How a forbid is named: by its `@id`, or by Cedar's id. */
  ghost predicate IsNameOf(name: string, p: Policy) {
    match p.Annotation("id")
    case Some(id) => name == id
    case None => name == p.id
  }

  ghost predicate IsVersionOf(version: PolicyVersion, state: EngineState) {
    && version.revision == state.policy.revision && version.generation == state.generation
    && version.labelSet == match state.labels { case None => None case Some(registry) => registry.version }
  }

  /** Forbids override permits; an Allow records every permit that applies, a Deny names every forbid that does. */
  ghost predicate IsAnswer(answer: DecisionDiagnostics, state: EngineState, chosen: PolicySet,
                           r: Request, graph: Entities, cond: Conditions)
  {
    && IsVersionOf(answer.decision.version, state)
    && (answer.decision.Allow? <==>
          && (exists id :: AppliesWith(Permit, chosen, id, r, graph, cond))
          && !(exists id :: AppliesWith(Forbid, chosen, id, r, graph, cond)))
    && (answer.decision.Allow? ==>
          && answer.forbidIds == []
          && (forall record :: record in answer.decision.policies <==>
                exists id :: AppliesWith(Permit, chosen, id, r, graph, cond) && IsRecordOf(record, chosen[id]))
          && |answer.decision.policies| == |set id | id in chosen && AppliesWith(Permit, chosen, id, r, graph, cond)|)
    && (answer.decision.Deny? ==>
          && StrictlyAscending(answer.forbidIds, StringLeq)
          && forall name :: name in answer.forbidIds <==>
               exists id :: AppliesWith(Forbid, chosen, id, r, graph, cond) && IsNameOf(name, chosen[id]))
  }

  /**
   What an evaluation answers, in terms of which policies apply: for every state a constructor and label updates can
   leave, in the chosen set, on the graph of the labelled resource.
   */
  lemma EvaluationAnswers(state: EngineState, source: PolicySet, r: Request, labelled: Resource, graph: Entities,
                          chosen: PolicySet, cond: Conditions)
    requires SnapshotOf(state.policy, source) && IsChosen(state.policy.sets, r, chosen)
    requires IsPrepared(state, r.resource, labelled)
    requires RolesDistinct(r.principal, r.resource.uid) && IsEntityGraph(graph, r.principal, labelled)
    ensures var e := EvaluateState(state, r, cond);
      e.Ok? && IsAnswer(e.value, state, chosen, r, graph, cond)
  {
    ChosenIsResolved(state.policy.sets, source, r, chosen);
    PreparedIsLabelled(state, r.resource, labelled);
    BuiltGraphIsEntityGraph(r.principal, labelled);
    EntityGraphIsUnique(graph, BuildEntities(r.principal, labelled).value, r.principal, labelled);
    ConclusionIsAnswer(state, source, r, graph, chosen, cond);
  }

  lemma ChosenIsResolved(sets: PolicySets, source: PolicySet, r: Request, chosen: PolicySet)
    requires SetsOf(sets, source) && IsChosen(sets, r, chosen)
    ensures Resolve(sets, r) == Ok(chosen)
    ensures forall id | id in chosen :: id in source && chosen[id] == source[id]
  {
    if sets.Scoped? {
      RoutesExactly(sets.layout, r.action, r.resource.uid.ty);
    }
    ChosenSetIsFromSource(sets, source, r);
  }

  lemma PreparedIsLabelled(state: EngineState, r: Resource, labelled: Resource)
    requires IsPrepared(state, r, labelled)
    ensures LabelledResource(state, r) == labelled && labelled.uid == r.uid
  {
    if state.labels.Some? {
      Labels.ApplyIsLabelledBy(state.labels.value, r, labelled);
    }
  }

  lemma ConclusionIsAnswer(state: EngineState, source: PolicySet, r: Request, graph: Entities, chosen: PolicySet,
                           cond: Conditions)
    requires SnapshotOf(state.policy, source)
    requires forall id | id in chosen :: id in source && chosen[id] == source[id]
    ensures var e := Conclude(state, IsAuthorized(chosen, ToCedarRequest(r), graph, cond));
      e.Ok? && IsAnswer(e.value, state, chosen, r, graph, cond)
  {
    var response := IsAuthorized(chosen, ToCedarRequest(r), graph, cond);
    EvidenceIsComplete(state.policy, source, chosen, ToCedarRequest(r), graph, cond);
    ResponseApplies(chosen, r, graph, cond);
    if response.allow {
      AllowIsAnswer(state, source, r, graph, chosen, cond);
    } else {
      DenyIsAnswer(state, source, r, graph, chosen, cond);
    }
  }

  /** The reference authorizer's response in terms of which policies apply. */
  lemma ResponseApplies(chosen: PolicySet, r: Request, graph: Entities, cond: Conditions)
    ensures var response := IsAuthorized(chosen, ToCedarRequest(r), graph, cond);
      && (response.allow <==>
            && (exists id :: AppliesWith(Permit, chosen, id, r, graph, cond))
            && !(exists id :: AppliesWith(Forbid, chosen, id, r, graph, cond)))
      && (forall id :: id in response.reasons <==>
            AppliesWith(if response.allow then Permit else Forbid, chosen, id, r, graph, cond))
  {
    var satisfied := SatisfiedIds(chosen, ToCedarRequest(r), graph, cond);
    assert forall id, effect ::
        id in WithEffect(chosen, satisfied, effect) <==> AppliesWith(effect, chosen, id, r, graph, cond);
  }

  lemma AllowIsAnswer(state: EngineState, source: PolicySet, r: Request, graph: Entities, chosen: PolicySet,
                      cond: Conditions)
    requires SnapshotOf(state.policy, source) && IsAuthorized(chosen, ToCedarRequest(r), graph, cond).allow
    requires forall id | id in chosen :: id in source && chosen[id] == source[id]
    ensures var e := Conclude(state, IsAuthorized(chosen, ToCedarRequest(r), graph, cond));
      e.Ok? && IsAnswer(e.value, state, chosen, r, graph, cond)
  {
    var response := IsAuthorized(chosen, ToCedarRequest(r), graph, cond);
    var records := ExtractPermits(state.policy, response);
    EvidenceIsComplete(state.policy, source, chosen, ToCedarRequest(r), graph, cond);
    ResponseApplies(chosen, r, graph, cond);
    assert response.reasons == set id | id in chosen && AppliesWith(Permit, chosen, id, r, graph, cond);
    forall record
      ensures record in records <==>
        exists id :: AppliesWith(Permit, chosen, id, r, graph, cond) && IsRecordOf(record, chosen[id])
    {
      if record in records {
        var id :| id in response.reasons && state.policy.permits[id] == record;
        assert AppliesWith(Permit, chosen, id, r, graph, cond) && IsRecordOf(record, chosen[id]);
      }
      if id :| AppliesWith(Permit, chosen, id, r, graph, cond) && IsRecordOf(record, chosen[id]) {
        assert id in response.reasons && state.policy.permits[id] == PermitMetadata(source[id]);
        assert record == PermitMetadata(source[id]);
      }
    }
  }

  lemma DenyIsAnswer(state: EngineState, source: PolicySet, r: Request, graph: Entities, chosen: PolicySet,
                     cond: Conditions)
    requires SnapshotOf(state.policy, source) && !IsAuthorized(chosen, ToCedarRequest(r), graph, cond).allow
    requires forall id | id in chosen :: id in source && chosen[id] == source[id]
    ensures var e := Conclude(state, IsAuthorized(chosen, ToCedarRequest(r), graph, cond));
      e.Ok? && IsAnswer(e.value, state, chosen, r, graph, cond)
  {
    var response := IsAuthorized(chosen, ToCedarRequest(r), graph, cond);
    EvidenceIsComplete(state.policy, source, chosen, ToCedarRequest(r), graph, cond);
    ResponseApplies(chosen, r, graph, cond);
    DenyNames(source, ExtractForbids(state.policy, response), response.reasons, r, graph, chosen, cond);
  }

  lemma DenyNames(source: PolicySet, names: seq<string>, reasons: set<PolicyId>, r: Request, graph: Entities,
                  chosen: PolicySet, cond: Conditions)
    requires KeyedById(source) && reasons <= source.Keys
    requires forall id | id in chosen :: id in source && chosen[id] == source[id]
    requires forall id :: id in reasons <==> AppliesWith(Forbid, chosen, id, r, graph, cond)
    requires forall name :: name in names <==> exists id :: id in reasons && ForbidId(source[id]) == name
    ensures forall name :: name in names <==>
      exists id :: AppliesWith(Forbid, chosen, id, r, graph, cond) && IsNameOf(name, chosen[id])
  {
    forall name
      ensures name in names <==>
        exists id :: AppliesWith(Forbid, chosen, id, r, graph, cond) && IsNameOf(name, chosen[id])
    {
      if name in names {
        var id :| id in reasons && ForbidId(source[id]) == name;
        assert AppliesWith(Forbid, chosen, id, r, graph, cond) && IsNameOf(name, chosen[id]);
      }
      if id :| AppliesWith(Forbid, chosen, id, r, graph, cond) && IsNameOf(name, chosen[id]) {
        assert id in reasons && ForbidId(source[id]) == name;
      }
    }
  }

  /** Every refusal, and what it says: routing comes first, then a uid in two roles; nothing else fails. */
  lemma EvaluationRefuses(state: EngineState, source: PolicySet, r: Request, cond: Conditions)
    requires SnapshotOf(state.policy, source)
    ensures var e, sets := EvaluateState(state, r, cond), state.policy.sets;
      && (e == Err(Routing(NoStore)) <==>
            sets.Scoped? && forall j: nat :: !PointsAt(sets.layout, r.action, r.resource.uid.ty, j))
      && (forall j: nat, k: nat :: e == Err(Routing(CrossStore(j, k))) <==>
            sets.Scoped? && j != k
            && Owns(sets.layout, j, r.action.namespace) && Owns(sets.layout, k, r.resource.uid.ty))
      && (e == Err(DuplicateEntity) <==>
            !RolesDistinct(r.principal, r.resource.uid) && exists chosen :: IsChosen(sets, r, chosen))
      && (e.Err? ==> e.error.Routing? || e.error == DuplicateEntity)
  {
    EvaluationNeverLosesEvidence(state, source, r, cond);
    RoutingRefuses(state.policy.sets, source, r);
    RoutedIsChosen(state.policy.sets, source, r);
    if state.labels.Some? {
      Labels.UnownedAttributesSurvive(state.labels.value, r.resource);
    }
    BuiltGraphIsEntityGraph(r.principal, LabelledResource(state, r.resource));
    FailuresArePropagated(state, r, cond);
  }

  lemma FailuresArePropagated(state: EngineState, r: Request, cond: Conditions)
    ensures var e, chosen := EvaluateState(state, r, cond), Resolve(state.policy.sets, r);
      && (chosen.Err? ==> e == Err(chosen.error))
      && (chosen.Ok? && BuildEntities(r.principal, LabelledResource(state, r.resource)).Err? ==>
            e == Err(BuildEntities(r.principal, LabelledResource(state, r.resource)).error))
      && (chosen.Ok? && BuildEntities(r.principal, LabelledResource(state, r.resource)).Ok? && e.Err? ==>
            e.error == AllowWithoutEvidence)
  {
  }

  lemma RoutingRefuses(sets: PolicySets, source: PolicySet, r: Request)
    requires SetsOf(sets, source)
    ensures Resolve(sets, r) == Err(Routing(NoStore)) <==>
      sets.Scoped? && forall j: nat :: !PointsAt(sets.layout, r.action, r.resource.uid.ty, j)
    ensures forall j: nat, k: nat :: Resolve(sets, r) == Err(Routing(CrossStore(j, k))) <==>
      sets.Scoped? && j != k && Owns(sets.layout, j, r.action.namespace) && Owns(sets.layout, k, r.resource.uid.ty)
    ensures Resolve(sets, r).Err? ==> Resolve(sets, r).error.Routing?
  {
    ChosenSetIsFromSource(sets, source, r);
    if sets.Scoped? {
      RoutesExactly(sets.layout, r.action, r.resource.uid.ty);
    }
  }

  lemma RoutedIsChosen(sets: PolicySets, source: PolicySet, r: Request)
    requires SetsOf(sets, source)
    ensures Resolve(sets, r).Ok? ==> IsChosen(sets, r, Resolve(sets, r).value)
    ensures Resolve(sets, r).Ok? <==> exists chosen :: IsChosen(sets, r, chosen)
  {
    if sets.Scoped? {
      RoutesExactly(sets.layout, r.action, r.resource.uid.ty);
    }
    ChosenSetIsFromSource(sets, source, r);
    if Resolve(sets, r).Ok? {
      assert IsChosen(sets, r, Resolve(sets, r).value);
    }
    if chosen :| IsChosen(sets, r, chosen) {
      ChosenIsResolved(sets, source, r, chosen);
    }
  }

  /** An evaluation never fails closed for want of evidence, nor for a store index out of range. */
  lemma EvaluationNeverLosesEvidence(state: EngineState, source: PolicySet, request: Request, cond: Conditions)
    requires SnapshotOf(state.policy, source)
    ensures var r := EvaluateState(state, request, cond);
      r.Err? ==> r.error.Routing? || r.error == DuplicateEntity
  {
    ChosenSetIsFromSource(state.policy.sets, source, request);
    var chosen := Resolve(state.policy.sets, request);
    var graph := BuildEntities(request.principal, LabelledResource(state, request.resource));
    if chosen.Ok? && graph.Ok? {
      var response := IsAuthorized(chosen.value, ToCedarRequest(request), graph.value, cond);
      EvidenceIsComplete(state.policy, source, chosen.value, ToCedarRequest(request), graph.value, cond);
      if response.allow {
        var id :| id in response.reasons;
        assert state.policy.permits[id] in ExtractPermits(state.policy, response);
      }
    }
  }

  function IdsOf(policies: seq<PermitPolicy>): seq<string> {
    if policies == [] then [] else [policies[0].Id()] + IdsOf(policies[1..])
  }

  /** The ids shown for permits: one each, its `@id` or else Cedar's. */
  lemma {:induction false} IdsOfEach(policies: seq<PermitPolicy>)
    ensures |IdsOf(policies)| == |policies|
    ensures forall i | 0 <= i < |policies| ::
        IdsOf(policies)[i] ==
          if policies[i].annotationId.Some? then policies[i].annotationId.value else policies[i].cedarId
  {
    if policies == [] {
    } else {
      IdsOfEach(policies[1..]);
      assert forall i | 1 <= i < |policies| :: policies[i] == policies[1..][i - 1];
    }
  }

  /** PermitPolicies::ids. */
  function EvidenceIds(policies: seq<PermitPolicy>): seq<string> {
    Sort(IdsOf(policies), StringLeq)
  }

  /** Cedar hands over its reasons in no particular order; the sorted ids do not depend on it. */
  lemma EvidenceIdsIgnoreOrder(a: seq<PermitPolicy>, b: seq<PermitPolicy>)
    requires multiset(a) == multiset(b)
    ensures EvidenceIds(a) == EvidenceIds(b)
    ensures Ascending(EvidenceIds(a), StringLeq)
    ensures multiset(EvidenceIds(a)) == multiset(IdsOf(a))
  {
    StringOrder();
    IdsOfPermutation(a, b);
    SortIgnoresOrder(IdsOf(a), IdsOf(b), StringLeq);
    SortAscends(IdsOf(a), StringLeq);
  }

  lemma {:induction false} IdsOfConcat(a: seq<PermitPolicy>, b: seq<PermitPolicy>)
    ensures IdsOf(a + b) == IdsOf(a) + IdsOf(b)
  {
    if a == [] {
      assert a + b == b;
    } else {
      IdsOfConcat(a[1..], b);
      assert (a + b)[1..] == a[1..] + b;
      AppendAssociative([a[0].Id()], IdsOf(a[1..]), IdsOf(b));
    }
  }

  lemma {:induction false} IdsOfPermutation(a: seq<PermitPolicy>, b: seq<PermitPolicy>)
    requires multiset(a) == multiset(b)
    ensures multiset(IdsOf(a)) == multiset(IdsOf(b))
    decreases |a|
  {
    assert |multiset(a)| == |a| && |multiset(b)| == |b|;
    if a == [] {
    } else {
      var k := WithoutFirst(a, b);
      var left, right := b[..k], b[k + 1..];
      IdsOfPermutation(a[1..], left + right);
      IdsOfMiddle(left, a[0], right);
      IdsWithFirst(a[0], a[1..], left, right);
    }
  }

  lemma IdsWithFirst(p: PermitPolicy, rest: seq<PermitPolicy>, left: seq<PermitPolicy>, right: seq<PermitPolicy>)
    requires multiset(IdsOf(rest)) == multiset(IdsOf(left) + IdsOf(right))
    ensures multiset([p.Id()] + IdsOf(rest)) == multiset(IdsOf(left) + [p.Id()] + IdsOf(right))
  {
    MultisetOfMiddle(IdsOf(left), p.Id(), IdsOf(right));
  }

  lemma IdsOfMiddle(left: seq<PermitPolicy>, p: PermitPolicy, right: seq<PermitPolicy>)
    ensures IdsOf(left + [p] + right) == IdsOf(left) + [p.Id()] + IdsOf(right)
    ensures IdsOf(left + right) == IdsOf(left) + IdsOf(right)
  {
    IdsOfConcat(left + [p], right);
    IdsOfConcat(left, [p]);
    IdsOfConcat(left, right);
    assert [p][1..] == [];
  }

  // ---------- Labels cannot be forged ----------

  /** Two requests that differ only in attributes the labelers own are decided alike. */
  lemma OwnedAttributesDoNotMatter(state: EngineState, request: Request, forged: Attributes, cond: Conditions)
    requires state.labels.Some?
    requires var owned := Labels.Owned(state.labels.value, request.resource.uid.ty);
      forged - owned == request.resource.attrs - owned
    ensures EvaluateState(state, request.(resource := request.resource.(attrs := forged)), cond)
         == EvaluateState(state, request, cond)
  {
    Labels.NonInterference(state.labels.value, request.resource, request.resource.(attrs := forged));
  }

  /**
   Nor can the canonical id: what a request carries under `id` reaches a decision only through what labelers derive
   from it. Requests whose labelled resources agree elsewhere are decided alike.
   */
  lemma CanonicalIdCannotBeForged(state: EngineState, request: Request, forged: Attributes, cond: Conditions)
    requires LabelledResource(state, request.resource.(attrs := forged)).attrs - {"id"}
          == LabelledResource(state, request.resource).attrs - {"id"}
    ensures EvaluateState(state, request.(resource := request.resource.(attrs := forged)), cond)
         == EvaluateState(state, request, cond)
  {
    var a := LabelledResource(state, request.resource.(attrs := forged));
    var b := LabelledResource(state, request.resource);
    if state.labels.Some? {
      Labels.UnownedAttributesSurvive(state.labels.value, request.resource);
      Labels.UnownedAttributesSurvive(state.labels.value, request.resource.(attrs := forged));
    }
    GraphIgnoresCallerId(request.principal, a, b);
    SameGraphSameAnswer(state, request, forged, cond);
  }

  lemma SameGraphSameAnswer(state: EngineState, request: Request, forged: Attributes, cond: Conditions)
    requires var other := request.resource.(attrs := forged);
      BuildEntities(request.principal, LabelledResource(state, other))
      == BuildEntities(request.principal, LabelledResource(state, request.resource))
    ensures EvaluateState(state, request.(resource := request.resource.(attrs := forged)), cond)
         == EvaluateState(state, request, cond)
  {
    var other := request.(resource := request.resource.(attrs := forged));
    assert Resolve(state.policy.sets, other) == Resolve(state.policy.sets, request);
    assert ToCedarRequest(other) == ToCedarRequest(request);
  }

  lemma GraphIgnoresCallerId(principal: Principal, a: Resource, b: Resource)
    requires a.uid == b.uid && a.attrs - {"id"} == b.attrs - {"id"}
    ensures BuildEntities(principal, a) == BuildEntities(principal, b)
  {
    SameOnceOverwritten(a.attrs, b.attrs, "id", StringValue(a.uid.id));
  }

  lemma SameOnceOverwritten(a: Attributes, b: Attributes, key: string, value: AttrValue)
    requires a - {key} == b - {key}
    ensures a[key := value] == b[key := value]
  {
    assert a[key := value] == (a - {key})[key := value];
    assert b[key := value] == (b - {key})[key := value];
  }
}
