/**
 Does deciding in one store decide as the whole source would? `docs/PolicyStores.md` calls stores an optimization
 that does not change authorization. That holds exactly when every local policy is pinned: no request that
 matches its scope routes to another store. What pins a policy depends on whether an action may be named by joined
 components, which match like its segments but route like nothing.
 */
module Pinning {
  import opened Prelude
  import opened Cedar
  import opened Names
  import opened PolicyStore
  import opened Partition
  import opened Evaluation
  import Labels

  /** Policies as Cedar parses them: action uids are of an `Action` type and no type name is empty. */
  ghost predicate WellFormedPolicy(p: Policy) {
    && (forall u | u in ListedActions(p.action) :: Basename(u.ty) == "Action")
    && (forall n | n in PolicyReferences(p) :: n != [] && AllSegments(n))
  }

  ghost predicate WellFormedSource(source: PolicySet) {
    KeyedById(source) && forall id | id in source :: WellFormedPolicy(source[id])
  }

  function ListedActions(c: ActionConstraint): seq<Uid> {
    match c
    case AnyAction => []
    case ActionEq(u) => [u]
    case ActionIn(us) => us
  }

  /** The uid an entity constraint names, if it names one. */
  function NamedUid(c: EntityConstraint): Option<Uid> {
    match c
    case Any => None
    case Eq(u) => Some(u)
    case In(u) => Some(u)
    case Is(_) => None
    case IsIn(_, u) => Some(u)
  }

  // ---------- Scopes that no request can match ----------

  predicate IsPrincipalType(ty: Name) {
    Basename(ty) == "User" || Basename(ty) == "Group"
  }

  /** Some request principal satisfies the constraint. */
  predicate PrincipalPossible(c: EntityConstraint) {
    match c
    case Any => true
    case Eq(u) => IsPrincipalType(u.ty) && u.id != ""
    case In(u) => IsPrincipalType(u.ty) && u.id != ""
    case Is(ty) => IsPrincipalType(ty)
    case IsIn(ty, u) =>
      && IsPrincipalType(ty) && u.id != ""
      && (u.ty == ty || (Basename(ty) == "User" && u.ty == Namespace(ty) + ["Group"]))
  }

  predicate ResourcePossible(c: EntityConstraint) {
    match c
    case Any => true
    case Eq(u) => u.id != ""
    case In(u) => u.id != ""
    case Is(_) => true
    case IsIn(ty, u) => u.ty == ty && u.id != ""
  }

  /** No request that builds an entity graph matches both entity scopes: one uid cannot play two roles. */
  predicate ScopeImpossible(p: Policy) {
    || !PrincipalPossible(p.principal)
    || !ResourcePossible(p.resource)
    || (NamedUid(p.principal).Some? && NamedUid(p.principal) == NamedUid(p.resource))
  }

  /** The type a resource constraint forces on the resource. */
  function ResourceType(c: EntityConstraint): Name
    requires !c.Any?
  {
    match c
    case Eq(u) => u.ty
    case In(u) => u.ty
    case Is(ty) => ty
    case IsIn(ty, _) => ty
  }

  /** The requests a layout has to answer for: those whose action routes as it is named, or all. */
  datatype Requests = RoutedAsNamed | AnyComponents

  predicate Includes(which: Requests, l: Layout, a: ActionId) {
    which.RoutedAsNamed? ==> NamedAsRouted(l, a)
  }

  /**
   A syntactic test on a policy assigned to store `i`. A resource of an unowned type leaves routing to the action,
   so listing the actions is enough there; with any resource, the namespace of each listed action must be owned,
   and must be a single segment if requests may join components.
   */
  predicate Pinned(which: Requests, l: Layout, p: Policy, i: nat) {
    || |l.stores| == 1
    || ScopeImpossible(p)
    || (p.resource.Any? && !p.action.AnyAction?
        && forall u | u in ListedActions(p.action) && u.id != "" ::
             Owner(l, Namespace(u.ty)) == Some(i) && (which.AnyComponents? ==> |Namespace(u.ty)| == 1))
    || (!p.resource.Any? && (!p.action.AnyAction? || Owner(l, ResourceType(p.resource)) == Some(i)))
  }

  // ---------- Routing of matching requests ----------

  /** A request that the identity constructors accept and whose entity graph builds. */
  ghost predicate Admissible(r: Request) {
    WellFormedRequest(r) && BuildEntities(r.principal, r.resource).Ok?
  }

  function Graph(r: Request): Entities
    requires BuildEntities(r.principal, r.resource).Ok?
  {
    BuildEntities(r.principal, r.resource).value
  }

  ghost predicate MatchesScope(p: Policy, r: Request)
    requires BuildEntities(r.principal, r.resource).Ok?
  {
    ScopeHolds(p, ToCedarRequest(r), Graph(r))
  }

  /** On a request's own graph, scopes reduce to comparisons. */
  lemma ScopeOnRequestGraph(p: Policy, r: Request)
    requires Admissible(r)
    ensures EntityScopeHolds(p.resource, r.resource.uid, Graph(r)) <==>
      match p.resource
      case Any => true
      case Eq(u) => r.resource.uid == u
      case In(u) => r.resource.uid == u
      case Is(ty) => r.resource.uid.ty == ty
      case IsIn(ty, u) => r.resource.uid.ty == ty && r.resource.uid == u
    ensures EntityScopeHolds(p.principal, r.principal.uid, Graph(r)) <==>
      match p.principal
      case Any => true
      case Eq(u) => r.principal.uid == u
      case In(u) => r.principal.uid == u || u in GroupSet(r.principal)
      case Is(ty) => r.principal.uid.ty == ty
      case IsIn(ty, u) => r.principal.uid.ty == ty && (r.principal.uid == u || u in GroupSet(r.principal))
    ensures ActionScopeHolds(p.action, r.action.uid, Graph(r)) <==>
      p.action.AnyAction? || r.action.uid in ListedActions(p.action)
  {
    if NamedUid(p.resource).Some? {
      GraphReachability(r.principal, r.resource, r.resource.uid, NamedUid(p.resource).value);
    }
    if NamedUid(p.principal).Some? {
      GraphReachability(r.principal, r.resource, r.principal.uid, NamedUid(p.principal).value);
    }
    ActionScopeOnRequestGraph(p.action, r);
  }

  lemma ActionScopeOnRequestGraph(c: ActionConstraint, r: Request)
    requires Admissible(r)
    ensures ActionScopeHolds(c, r.action.uid, Graph(r)) <==> c.AnyAction? || r.action.uid in ListedActions(c)
  {
    ActionSegments(r.action);
    if c.ActionIn? {
      forall u | u in c.uids ensures InHierarchy(Graph(r), r.action.uid, u) <==> r.action.uid == u {
        GraphReachability(r.principal, r.resource, r.action.uid, u);
      }
    }
  }

  /** A request matching an impossible scope would need one uid in two roles. */
  lemma ImpossibleScopesDoNotMatch(p: Policy, r: Request)
    requires Admissible(r) && ScopeImpossible(p)
    ensures !MatchesScope(p, r)
  {
    ScopeOnRequestGraph(p, r);
    var graph := Graph(r);
    if r.principal.User? {
      forall g | g in GroupSet(r.principal) ensures g.ty == Namespace(r.principal.uid.ty) + ["Group"] && g.id != "" {
        assert g in r.principal.groups;
      }
    }
  }

  /** A request that matches a pinned policy and routes at all routes to the policy's store. */
  lemma PinnedRequestsStay(which: Requests, l: Layout, p: Policy, i: nat, r: Request)
    requires ValidLayout(l) && IsLocal(l, p, i) && Pinned(which, l, p, i)
    requires Admissible(r) && Includes(which, l, r.action) && MatchesScope(p, r)
    requires ResolveRequest(l, r.action, r.resource.uid.ty).Ok?
    ensures ResolveRequest(l, r.action, r.resource.uid.ty) == Ok(i)
  {
    var ty := r.resource.uid.ty;
    ScopeOnRequestGraph(p, r);
    RoutesExactly(l, r.action, ty);
    OwnerIsUnique(l, r.action.namespace);
    OwnerIsUnique(l, ty);
    ComponentsLeadToOwnerOrNowhere(l, r.action);
    if ScopeImpossible(p) { ImpossibleScopesDoNotMatch(p, r); }
    if !p.resource.Any? {
      assert ty == ResourceType(p.resource) && ty in EntityReferences(p.resource);
      ReferencesStayInside(l, p, i, ty);
    }
    if !p.action.AnyAction? {
      ListedActionsStay(l, p, i, r.action);
      if |Namespace(r.action.uid.ty)| == 1 { OneSegmentIsOneComponent(l, r.action); }
    }
  }

  /** An action a local policy lists leads to the policy's store or nowhere. */
  lemma ListedActionsStay(l: Layout, p: Policy, i: nat, a: ActionId)
    requires ValidLayout(l) && IsLocal(l, p, i) && WellFormedAction(a) && a.uid in ListedActions(p.action)
    ensures Owner(l, a.namespace) == None || Owner(l, a.namespace) == Some(i)
    ensures Owner(l, Namespace(a.uid.ty)) == None || Owner(l, Namespace(a.uid.ty)) == Some(i)
  {
    ActionTypesAreReferences(p, a.uid);
    ReferencesStayInside(l, p, i, a.uid.ty);
    ComponentsLeadToOwnerOrNowhere(l, a);
    if Owner(l, Namespace(a.uid.ty)).Some? { OwnerBelow(l, Namespace(a.uid.ty), a.uid.ty); }
  }

  /** A namespace of one segment cannot be joined. */
  lemma OneSegmentIsOneComponent(l: Layout, a: ActionId)
    requires ValidLayout(l) && WellFormedAction(a) && |Namespace(a.uid.ty)| == 1
    ensures NamedAsRouted(l, a)
  {
    ActionSegments(a);
    assert a.namespace != [] && Flatten(a.namespace[1..]) == [];
    if |a.namespace| > 1 { assert SplitPath(a.namespace[1]) != []; }
    SinglePartIsText(a.namespace[0]);
    assert a.uid.ty[0] == a.namespace[0];
    PlainComponentsAreRoutedAsNamed(l, a);
  }

  lemma ReferencesStayInside(l: Layout, p: Policy, i: nat, n: Name)
    requires ValidLayout(l) && IsLocal(l, p, i) && n in PolicyReferences(p)
    ensures Owner(l, n) == None || Owner(l, n) == Some(i)
  {
    OwnerIsUnique(l, n);
    if Owner(l, n).Some? {
      var j := Owner(l, n).value;
      assert Owns(l, j, n) && OwnsOneOf(l, j, PolicyReferences(p)) && j in ReferencedStores(l, p);
    }
  }

  lemma ActionTypesAreReferences(p: Policy, u: Uid)
    requires u in ListedActions(p.action)
    ensures u.ty in ActionReferences(p.action) && u.ty in PolicyReferences(p)
  {
    if p.action.ActionIn? {
      var k :| 0 <= k < |p.action.uids| && p.action.uids[k] == u;
      assert UidTypes(p.action.uids)[k] == u.ty;
    }
  }

  // ---------- Requests that escape an unpinned policy ----------

  function FreshId(id: string): (r: string)
    ensures r != id && r != ""
  {
    if id == "a" then "b" else "a"
  }

  /** A principal satisfying a constraint while leaving the uid `v` free for the resource. */
  function WitnessPrincipal(c: EntityConstraint, v: Uid): (p: Principal)
    requires PrincipalPossible(c) && NamedUid(c) != Some(v)
    ensures WellFormedPrincipal(p)
    ensures v != p.uid && v !in GroupSet(p) && p.uid !in GroupSet(p)
    ensures match c
      case Any => true
      case Eq(u) => p.uid == u
      case In(u) => p.uid == u
      case Is(ty) => p.uid.ty == ty
      case IsIn(ty, u) => p.uid.ty == ty && (p.uid == u || u in GroupSet(p))
  {
    match c
    case Any => OfType(["User"], FreshId(v.id), [])
    case Eq(u) => OfType(u.ty, u.id, [])
    case In(u) => OfType(u.ty, u.id, [])
    case Is(ty) => OfType(ty, FreshId(v.id), [])
    case IsIn(ty, u) =>
      if u.ty == ty then OfType(ty, u.id, [])
      else OfType(ty, FreshId(v.id), [u])
  }

  function OfType(ty: Name, id: string, groups: seq<Uid>): Principal {
    if Basename(ty) == "User" then User(Uid(ty, id), groups) else Group(Uid(ty, id))
  }

  function WitnessResource(p: Policy, anywhere: Name): Uid {
    match p.resource
    case Any => Uid(anywhere, FreshId(if NamedUid(p.principal).Some? then NamedUid(p.principal).value.id else ""))
    case Eq(u) => u
    case In(u) => u
    case Is(ty) => Uid(ty, FreshId(if NamedUid(p.principal).Some? then NamedUid(p.principal).value.id else ""))
    case IsIn(_, u) => u
  }

  /** Pinning is necessary: an unpinned policy matches some admissible request that routes to another store. */
  lemma UnpinnedPoliciesEscape(which: Requests, l: Layout, p: Policy, i: nat) returns (r: Request)
    requires ValidLayout(l) && WellFormedPolicy(p) && IsLocal(l, p, i) && !Pinned(which, l, p, i)
    ensures Admissible(r) && Includes(which, l, r.action) && MatchesScope(p, r)
    ensures ResolveRequest(l, r.action, r.resource.uid.ty).Ok?
    ensures ResolveRequest(l, r.action, r.resource.uid.ty).value != i
  {
    var j: nat := if i == 0 then 1 else 0;
    var home := l.stores[j].namespace;
    assert l.stores[j] in l.stores;
    var resource := WitnessResource(p, home);
    if !p.resource.Any? {
      assert ResourceType(p.resource) in EntityReferences(p.resource);
      assert resource.ty == ResourceType(p.resource) && ResourceType(p.resource) in PolicyReferences(p);
    }
    var principal := WitnessPrincipal(p.principal, resource);
    var action := WitnessAction(which, l, p, i, j);
    r := Request(principal, action, Resource(resource, map[]), map[]);
    ScopeOnRequestGraph(p, r);
    OwnerIsUnique(l, home);
    assert Owns(l, j, home);
    if !p.resource.Any? {
      ReferencesStayInside(l, p, i, ResourceType(p.resource));
    }
  }

  /** An action the policy allows, leading to store `j` where the resource does not and to no store otherwise. */
  lemma WitnessAction(which: Requests, l: Layout, p: Policy, i: nat, j: nat) returns (action: ActionId)
    requires ValidLayout(l) && WellFormedPolicy(p) && IsLocal(l, p, i) && !Pinned(which, l, p, i) && j < |l.stores|
    ensures WellFormedAction(action) && Includes(which, l, action)
    ensures p.action.AnyAction? || action.uid in ListedActions(p.action)
    ensures Owner(l, action.namespace) == if p.resource.Any? then None else Some(j)
  {
    if !p.action.AnyAction? {
      var u := UnpinnedAction(which, l, p, i);
      action := WitnessListedAction(which, l, p, i, u);
    } else if p.resource.Any? {
      action := UnownedAction(l);
    } else {
      action := OwnedAction(l, j);
    }
  }

  lemma UnpinnedAction(which: Requests, l: Layout, p: Policy, i: nat) returns (u: Uid)
    requires !Pinned(which, l, p, i) && !p.action.AnyAction?
    ensures p.resource.Any? && u in ListedActions(p.action) && u.id != ""
    ensures !(Owner(l, Namespace(u.ty)) == Some(i) && (which.AnyComponents? ==> |Namespace(u.ty)| == 1))
  {
    u :| u in ListedActions(p.action) && u.id != ""
      && !(Owner(l, Namespace(u.ty)) == Some(i) && (which.AnyComponents? ==> |Namespace(u.ty)| == 1));
  }

  lemma UnownedAction(l: Layout) returns (action: ActionId)
    requires ValidLayout(l)
    ensures WellFormedAction(action) && NamedAsRouted(l, action) && Owner(l, action.namespace) == None
  {
    action := PlainAction(l, [], "a");
    if Owner(l, []).Some? { OwnedNamesAreNotEmpty(l, []); }
  }

  lemma OwnedAction(l: Layout, j: nat) returns (action: ActionId)
    requires ValidLayout(l) && j < |l.stores|
    ensures WellFormedAction(action) && NamedAsRouted(l, action) && Owner(l, action.namespace) == Some(j)
  {
    assert ValidStoreConfig(l.stores[j]) by { assert l.stores[j] in l.stores; }
    action := PlainAction(l, l.stores[j].namespace, "a");
    OwnerIsUnique(l, action.namespace);
    assert Owns(l, j, action.namespace);
  }

  /** A listed action leads nowhere when its namespace is unowned, and can be made to when it has two segments. */
  lemma WitnessListedAction(which: Requests, l: Layout, p: Policy, i: nat, u: Uid) returns (action: ActionId)
    requires ValidLayout(l) && WellFormedPolicy(p) && IsLocal(l, p, i) && u in ListedActions(p.action) && u.id != ""
    requires !(Owner(l, Namespace(u.ty)) == Some(i) && (which.AnyComponents? ==> |Namespace(u.ty)| == 1))
    ensures WellFormedAction(action) && Includes(which, l, action) && action.uid == u
    ensures Owner(l, action.namespace) == None
  {
    ActionTypesAreReferences(p, u);
    var ns := Namespace(u.ty);
    assert u.ty == ns + [ACTION];
    action := PlainAction(l, ns, u.id);
    ListedActionsStay(l, p, i, action);
    if Owner(l, ns) == Some(i) {
      OwnedNamesAreNotEmpty(l, ns);
      action := JoinedAction(l, ns, u.id);
    }
  }

  lemma OwnedNamesAreNotEmpty(l: Layout, name: Name)
    requires ValidLayout(l) && Owner(l, name).Some?
    ensures name != []
  {
    OwnerIsUnique(l, name);
    var i := Owner(l, name).value;
    assert Owns(l, i, name) && l.stores[i] in l.stores;
  }

  /** An action named by its segments. */
  lemma PlainAction(l: Layout, ns: Name, id: string) returns (action: ActionId)
    requires ValidLayout(l) && AllSegments(ns) && id != ""
    ensures WellFormedAction(action) && NamedAsRouted(l, action)
    ensures action == ActionId(ns, Uid(ns + [ACTION], id))
  {
    action := ActionId(ns, Uid(ns + [ACTION], id));
    assert IsSegment(ACTION);
    SplitInvertsJoin(ns + [ACTION]);
    PlainComponentsAreRoutedAsNamed(l, action);
  }

  /** The same action with its first two segments in one component leads nowhere. */
  lemma JoinedAction(l: Layout, ns: Name, id: string) returns (action: ActionId)
    requires ValidLayout(l) && AllSegments(ns) && |ns| >= 2 && id != ""
    ensures WellFormedAction(action) && action.uid == Uid(ns + [ACTION], id)
    ensures action.namespace == [ns[0] + (SEPARATOR + ns[1])] + ns[2..]
    ensures Owner(l, action.namespace) == None
  {
    var joined := ns[0] + (SEPARATOR + ns[1]);
    action := ActionId([joined] + ns[2..], Uid(ns + [ACTION], id));
    assert IsSegment(ACTION);
    SplitInvertsJoin(ns + [ACTION]);
    JoiningTwoKeepsText(ns[0], ns[1], ns[2..] + [ACTION]);
    assert ns + [ACTION] == [ns[0], ns[1]] + (ns[2..] + [ACTION]);
    assert action.namespace + [ACTION] == [joined] + (ns[2..] + [ACTION]);
    OwnerIsUnique(l, action.namespace);
    forall k: nat ensures !Owns(l, k, action.namespace) {
      assert joined[|ns[0]|] == ':';
      if k < |l.stores| {
        assert ValidStoreConfig(l.stores[k]) by { assert l.stores[k] in l.stores; }
        assert IsSegment(l.stores[k].namespace[0]);
      }
    }
  }

  // ---------- The main theorem ----------

  /** Whatever the conditions do, the store a request routes to satisfies the policies that the whole source does. */
  ghost predicate StoreDecidesLikeSource(l: Layout, source: PolicySet, stores: seq<PolicySet>,
                                         r: Request, cond: Conditions)
    requires Admissible(r) && |stores| == |l.stores|
  {
    var route := ResolveRequest(l, r.action, r.resource.uid.ty);
    route.Ok? && route.value < |stores| ==>
      SatisfiedIds(stores[route.value], ToCedarRequest(r), Graph(r), cond)
      == SatisfiedIds(source, ToCedarRequest(r), Graph(r), cond)
  }

  /** Without any condition: a store's satisfied policies are the source's, restricted to those installed in it. */
  lemma StoreSatisfiesItsShare(l: Layout, source: PolicySet, stores: seq<PolicySet>, i: nat,
                               r: CedarRequest, graph: Entities, cond: Conditions)
    requires IsPartition(l, source, stores) && i < |stores|
    ensures SatisfiedIds(stores[i], r, graph, cond)
         == set id | id in SatisfiedIds(source, r, graph, cond) && InstalledIn(l, source[id], i)
  {
  }

  ghost predicate AllPinned(which: Requests, l: Layout, source: PolicySet) {
    forall id, i: nat | id in source && IsLocal(l, source[id], i) :: Pinned(which, l, source[id], i)
  }

  lemma PinnedStoreDecidesLikeSource(which: Requests, l: Layout, source: PolicySet, stores: seq<PolicySet>,
                                     r: Request, cond: Conditions)
    requires ValidLayout(l) && Partitionable(l, source) && IsPartition(l, source, stores)
    requires AllPinned(which, l, source) && Admissible(r) && Includes(which, l, r.action)
    ensures StoreDecidesLikeSource(l, source, stores, r, cond)
  {
    var route := ResolveRequest(l, r.action, r.resource.uid.ty);
    if route.Ok? && route.value < |stores| {
      StoreSatisfiesItsShare(l, source, stores, route.value, ToCedarRequest(r), Graph(r), cond);
      forall id | id in SatisfiedIds(source, ToCedarRequest(r), Graph(r), cond)
        ensures InstalledIn(l, source[id], route.value)
      {
        assert Assignable(l, source[id]);
        if !IsGlobal(l, source[id]) {
          var i: nat :| IsLocal(l, source[id], i);
          PinnedRequestsStay(which, l, source[id], i, r);
        }
      }
    }
  }

  lemma UnpinnedStoreDecidesOtherwise(which: Requests, l: Layout, source: PolicySet, stores: seq<PolicySet>,
                                      id: PolicyId, i: nat)
    returns (r: Request, cond: Conditions)
    requires ValidLayout(l) && WellFormedSource(source) && IsPartition(l, source, stores)
    requires id in source && IsLocal(l, source[id], i) && !Pinned(which, l, source[id], i)
    ensures Admissible(r) && Includes(which, l, r.action) && !StoreDecidesLikeSource(l, source, stores, r, cond)
  {
    r := UnpinnedPoliciesEscape(which, l, source[id], i);
    cond := (p, q, g) => True;
    var j := ResolveRequest(l, r.action, r.resource.uid.ty).value;
    RoutesExactly(l, r.action, r.resource.uid.ty);
    LocalStoreIsUnique(l, source[id], i, j);
    StoreSatisfiesItsShare(l, source, stores, j, ToCedarRequest(r), Graph(r), cond);
    assert id in SatisfiedIds(source, ToCedarRequest(r), Graph(r), cond);
    assert !InstalledIn(l, source[id], j);
  }

  /**
   The exact condition under which partitioning preserves meaning. Every local policy is pinned if and only if, for
   every admissible request of the kind asked for and every behaviour of conditions, the selected store satisfies
   the same policies. With all requests included, more is asked of a policy that leaves the resource open.
   */
  lemma PartitionPreservesMeaningExactlyWhenPinned(which: Requests, l: Layout, source: PolicySet,
                                                   stores: seq<PolicySet>)
    requires ValidLayout(l) && WellFormedSource(source)
    requires Partitionable(l, source) && IsPartition(l, source, stores)
    ensures AllPinned(which, l, source) <==>
      forall r: Request, cond: Conditions | Admissible(r) && Includes(which, l, r.action) ::
        StoreDecidesLikeSource(l, source, stores, r, cond)
  {
    if AllPinned(which, l, source) {
      forall r: Request, cond: Conditions | Admissible(r) && Includes(which, l, r.action)
        ensures StoreDecidesLikeSource(l, source, stores, r, cond)
      {
        PinnedStoreDecidesLikeSource(which, l, source, stores, r, cond);
      }
    } else {
      var id, i: nat :| id in source && IsLocal(l, source[id], i) && !Pinned(which, l, source[id], i);
      var r, cond := UnpinnedStoreDecidesOtherwise(which, l, source, stores, id, i);
    }
  }

  /** With all local policies pinned, a routed evaluation returns what the monolithic engine returns. */
  lemma PinnedEngineEvaluatesLikeMonolithic(which: Requests, state: EngineState, source: PolicySet,
                                            request: Request, cond: Conditions)
    requires SnapshotOf(state.policy, source) && state.policy.sets.Scoped?
    requires AllPinned(which, state.policy.sets.layout, source) && WellFormedRequest(request)
    requires Includes(which, state.policy.sets.layout, request.action)
    requires ResolveRequest(state.policy.sets.layout, request.action, request.resource.uid.ty).Ok?
    ensures EvaluateState(state, request, cond)
         == EvaluateState(state.(policy := state.policy.(sets := Monolithic(source))), request, cond)
  {
    var l, stores := state.policy.sets.layout, state.policy.sets.stores;
    var labelled := request.(resource := LabelledResource(state, request.resource));
    if state.labels.Some? {
      Labels.UnownedAttributesSurvive(state.labels.value, request.resource);
    }
    RoutesExactly(l, request.action, request.resource.uid.ty);
    if BuildEntities(labelled.principal, labelled.resource).Ok? {
      PinnedStoreAnswersLikeSource(which, l, source, stores, labelled, cond);
      var response := IsAuthorized(source, ToCedarRequest(request), Graph(labelled), cond);
      ConclusionsIgnoreSets(state, Monolithic(source), response);
    }
  }

  lemma ConclusionsIgnoreSets(state: EngineState, sets: PolicySets, response: Response)
    ensures Conclude(state.(policy := state.policy.(sets := sets)), response) == Conclude(state, response)
  {
    var other := state.policy.(sets := sets);
    assert ExtractPermits(other, response) == ExtractPermits(state.policy, response);
    assert response.allow || (set id | id in response.reasons && id in other.forbids :: other.forbids[id])
      == set id | id in response.reasons && id in state.policy.forbids :: state.policy.forbids[id];
  }

  lemma SameSatisfiedSameResponse(store: PolicySet, source: PolicySet,
                                  r: CedarRequest, graph: Entities, cond: Conditions)
    requires forall id | id in store :: id in source && store[id] == source[id]
    requires SatisfiedIds(store, r, graph, cond) == SatisfiedIds(source, r, graph, cond)
    ensures IsAuthorized(store, r, graph, cond) == IsAuthorized(source, r, graph, cond)
  {
    var ids := SatisfiedIds(store, r, graph, cond);
    assert WithEffect(store, ids, Forbid) == WithEffect(source, ids, Forbid);
    assert WithEffect(store, ids, Permit) == WithEffect(source, ids, Permit);
  }

  // ---------- From satisfied policies to answers ----------

  ghost function SatisfiedForbids(policies: PolicySet, r: CedarRequest, graph: Entities, cond: Conditions)
    : set<PolicyId>
  {
    WithEffect(policies, SatisfiedIds(policies, r, graph, cond), Forbid)
  }

  /** A store that misses a satisfied policy answers alike only where forbids decide and it misses none of them. */
  lemma MissedPolicyShowsUnlessMasked(store: PolicySet, source: PolicySet, id: PolicyId,
                                      r: CedarRequest, graph: Entities, cond: Conditions)
    requires forall x | x in store :: x in source && store[x] == source[x]
    requires id in SatisfiedIds(source, r, graph, cond) && id !in store
    ensures IsAuthorized(store, r, graph, cond) == IsAuthorized(source, r, graph, cond) <==>
      var forbids := SatisfiedForbids(source, r, graph, cond);
      forbids != {} && forbids <= store.Keys
  {
    var all, some := SatisfiedForbids(source, r, graph, cond), SatisfiedForbids(store, r, graph, cond);
    assert forall x :: x in some <==> x in all && x in store;
    assert all <= store.Keys ==> some == all;
    assert source[id].effect == Permit || id in all;
    assert source[id].effect == Permit ==> id in WithEffect(source, SatisfiedIds(source, r, graph, cond), Permit);
  }

  ghost predicate AnswersLikeSource(l: Layout, source: PolicySet, stores: seq<PolicySet>, r: Request, cond: Conditions)
    requires Admissible(r) && |stores| == |l.stores|
  {
    var route := ResolveRequest(l, r.action, r.resource.uid.ty);
    route.Ok? && route.value < |stores| ==>
      IsAuthorized(stores[route.value], ToCedarRequest(r), Graph(r), cond)
      == IsAuthorized(source, ToCedarRequest(r), Graph(r), cond)
  }

  /** A forbid that applies to a request whatever conditions do. */
  ghost predicate IsOpenForbid(p: Policy, r: Request)
    requires Admissible(r)
  {
    p.effect == Forbid && p.clauses == [] && MatchesScope(p, r)
  }

  /** Forbids without conditions apply, and the store has them all. */
  ghost predicate IsMasked(source: PolicySet, store: PolicySet, r: Request)
    requires Admissible(r)
  {
    && (exists x :: x in source && IsOpenForbid(source[x], r))
    && forall x | x in source && IsOpenForbid(source[x], r) :: x in store
  }

  /**
   An unpinned policy changes answers, not only satisfied sets: at the request that escapes it, with every other
   condition false, the store's response is not the source's unless the policy is a permit masked by forbids.
   */
  lemma UnpinnedPoliciesChangeAnswers(which: Requests, l: Layout, source: PolicySet, stores: seq<PolicySet>,
                                      id: PolicyId, i: nat)
    returns (r: Request, cond: Conditions)
    requires ValidLayout(l) && WellFormedSource(source) && IsPartition(l, source, stores)
    requires id in source && IsLocal(l, source[id], i) && !Pinned(which, l, source[id], i)
    ensures Admissible(r) && Includes(which, l, r.action)
    ensures var route := ResolveRequest(l, r.action, r.resource.uid.ty);
      && route.Ok? && route.value < |stores|
      && (AnswersLikeSource(l, source, stores, r, cond) <==>
            source[id].effect == Permit && IsMasked(source, stores[route.value], r))
  {
    r := UnpinnedPoliciesEscape(which, l, source[id], i);
    RoutesExactly(l, r.action, r.resource.uid.ty);
    var j := ResolveRequest(l, r.action, r.resource.uid.ty).value;
    LocalStoreIsUnique(l, source[id], i, j);
    assert !InstalledIn(l, source[id], j);
    cond := OnlyOnePolicyApplies(source, stores[j], id, r);
  }

  /** With every other condition false, missing a matching policy shows unless the policy is a masked permit. */
  lemma OnlyOnePolicyApplies(source: PolicySet, store: PolicySet, id: PolicyId, r: Request) returns (cond: Conditions)
    requires KeyedById(source) && forall x | x in store :: x in source && store[x] == source[x]
    requires id in source && id !in store && Admissible(r) && MatchesScope(source[id], r)
    ensures
      IsAuthorized(store, ToCedarRequest(r), Graph(r), cond) == IsAuthorized(source, ToCedarRequest(r), Graph(r), cond)
      <==> source[id].effect == Permit && IsMasked(source, store, r)
  {
    var p := source[id];
    cond := (q, _, _) => if q == p then True else False;
    MissedPolicyShowsUnlessMasked(store, source, id, ToCedarRequest(r), Graph(r), cond);
    OnlyOpenForbidsApply(source, store, id, r, cond);
  }

  lemma OnlyOpenForbidsApply(source: PolicySet, store: PolicySet, id: PolicyId, r: Request, cond: Conditions)
    requires KeyedById(source) && id in source && id !in store && Admissible(r) && MatchesScope(source[id], r)
    requires forall q, c, g :: cond(q, c, g) == if q == source[id] then True else False
    ensures var forbids := SatisfiedForbids(source, ToCedarRequest(r), Graph(r), cond);
      forbids != {} && forbids <= store.Keys <==> source[id].effect == Permit && IsMasked(source, store, r)
  {
    var forbids := SatisfiedForbids(source, ToCedarRequest(r), Graph(r), cond);
    forall x ensures x in forbids <==>
        x in source && (IsOpenForbid(source[x], r) || (x == id && source[id].effect == Forbid))
    {
      assert x in source && source[x] == source[id] ==> x == id;
    }
  }

  ghost predicate IsUnpinned(which: Requests, l: Layout, p: Policy) {
    exists i: nat :: IsLocal(l, p, i) && !Pinned(which, l, p, i)
  }

  /** The request matches the policy's scope and routes to a store without it. */
  ghost predicate IsMissed(l: Layout, source: PolicySet, stores: seq<PolicySet>, id: PolicyId, r: Request)
    requires id in source && Admissible(r)
  {
    var route := ResolveRequest(l, r.action, r.resource.uid.ty);
    MatchesScope(source[id], r) && route.Ok? && route.value < |stores| && id !in stores[route.value]
  }

  /** Wherever an unpinned policy is missed, it is a permit and masked by forbids that need no condition. */
  ghost predicate MissesAreMasked(which: Requests, l: Layout, source: PolicySet, stores: seq<PolicySet>) {
    forall id, r: Request {:trigger IsMissed(l, source, stores, id, r)} |
      && id in source && IsUnpinned(which, l, source[id])
      && Admissible(r) && Includes(which, l, r.action) && IsMissed(l, source, stores, id, r) ::
        source[id].effect == Permit
        && IsMasked(source, stores[ResolveRequest(l, r.action, r.resource.uid.ty).value], r)
  }

  /** In any source: every answer is kept if and only if the misses of unpinned policies are masked. */
  lemma AnswersAgreeExactlyWhenMasked(which: Requests, l: Layout, source: PolicySet, stores: seq<PolicySet>)
    requires ValidLayout(l) && WellFormedSource(source)
    requires Partitionable(l, source) && IsPartition(l, source, stores)
    ensures MissesAreMasked(which, l, source, stores) <==>
      forall r: Request, cond: Conditions | Admissible(r) && Includes(which, l, r.action) ::
        AnswersLikeSource(l, source, stores, r, cond)
  {
    if MissesAreMasked(which, l, source, stores) {
      forall r: Request, cond: Conditions | Admissible(r) && Includes(which, l, r.action)
        ensures AnswersLikeSource(l, source, stores, r, cond)
      {
        MaskedMissesKeepAnswer(which, l, source, stores, r, cond);
      }
    } else {
      var id, r: Request :|
        && id in source && IsUnpinned(which, l, source[id])
        && Admissible(r) && Includes(which, l, r.action) && IsMissed(l, source, stores, id, r)
        && !(source[id].effect == Permit
             && IsMasked(source, stores[ResolveRequest(l, r.action, r.resource.uid.ty).value], r));
      var cond := OnlyOnePolicyApplies(source, stores[ResolveRequest(l, r.action, r.resource.uid.ty).value], id, r);
      assert !AnswersLikeSource(l, source, stores, r, cond);
    }
  }

  lemma MaskedMissesKeepAnswer(which: Requests, l: Layout, source: PolicySet, stores: seq<PolicySet>,
                               r: Request, cond: Conditions)
    requires ValidLayout(l) && Partitionable(l, source) && IsPartition(l, source, stores)
    requires MissesAreMasked(which, l, source, stores) && Admissible(r) && Includes(which, l, r.action)
    ensures AnswersLikeSource(l, source, stores, r, cond)
  {
    var route := ResolveRequest(l, r.action, r.resource.uid.ty);
    if route.Ok? && route.value < |stores| {
      var store := stores[route.value];
      forall x | x in SatisfiedIds(source, ToCedarRequest(r), Graph(r), cond) && x !in store
        ensures source[x].effect == Permit && IsMasked(source, store, r)
      {
        assert IsMissed(l, source, stores, x, r);
        MissedPoliciesAreUnpinned(which, l, source, stores, x, r);
      }
      MaskedStoreAnswersAlike(source, store, r, cond);
    }
  }

  lemma MaskedStoreAnswersAlike(source: PolicySet, store: PolicySet, r: Request, cond: Conditions)
    requires Admissible(r) && forall x | x in store :: x in source && store[x] == source[x]
    requires forall x | x in SatisfiedIds(source, ToCedarRequest(r), Graph(r), cond) && x !in store ::
        source[x].effect == Permit && IsMasked(source, store, r)
    ensures
      IsAuthorized(store, ToCedarRequest(r), Graph(r), cond) == IsAuthorized(source, ToCedarRequest(r), Graph(r), cond)
  {
    var satisfied := SatisfiedIds(source, ToCedarRequest(r), Graph(r), cond);
    if satisfied <= store.Keys {
      assert satisfied == SatisfiedIds(store, ToCedarRequest(r), Graph(r), cond);
      SameSatisfiedSameResponse(store, source, ToCedarRequest(r), Graph(r), cond);
    } else {
      var id :| id in satisfied && id !in store;
      OpenForbidsAreSatisfied(source, r, cond);
      assert SatisfiedForbids(source, ToCedarRequest(r), Graph(r), cond) <= store.Keys;
      MissedPolicyShowsUnlessMasked(store, source, id, ToCedarRequest(r), Graph(r), cond);
    }
  }

  lemma MissedPoliciesAreUnpinned(which: Requests, l: Layout, source: PolicySet, stores: seq<PolicySet>,
                                  id: PolicyId, r: Request)
    requires ValidLayout(l) && Partitionable(l, source) && IsPartition(l, source, stores) && id in source
    requires Admissible(r) && Includes(which, l, r.action) && IsMissed(l, source, stores, id, r)
    ensures IsUnpinned(which, l, source[id])
  {
    var p := source[id];
    assert Assignable(l, p);
    assert !InstalledIn(l, p, ResolveRequest(l, r.action, r.resource.uid.ty).value);
    var i: nat :| IsLocal(l, p, i);
    if Pinned(which, l, p, i) {
      PinnedRequestsStay(which, l, p, i, r);
    }
  }

  lemma OpenForbidsAreSatisfied(source: PolicySet, r: Request, cond: Conditions)
    requires Admissible(r)
    ensures forall x | x in source && IsOpenForbid(source[x], r) ::
        x in SatisfiedForbids(source, ToCedarRequest(r), Graph(r), cond)
  {
  }

  /** Where every forbid has a condition, pinning is exactly what keeps every answer. */
  lemma AnswersAgreeExactlyWhenPinned(which: Requests, l: Layout, source: PolicySet, stores: seq<PolicySet>)
    requires ValidLayout(l) && WellFormedSource(source)
    requires Partitionable(l, source) && IsPartition(l, source, stores)
    requires forall id | id in source && source[id].effect == Forbid :: source[id].clauses != []
    ensures AllPinned(which, l, source) <==>
      forall r: Request, cond: Conditions | Admissible(r) && Includes(which, l, r.action) ::
        AnswersLikeSource(l, source, stores, r, cond)
  {
    if AllPinned(which, l, source) {
      forall r: Request, cond: Conditions | Admissible(r) && Includes(which, l, r.action)
        ensures AnswersLikeSource(l, source, stores, r, cond)
      {
        PinnedStoreAnswersLikeSource(which, l, source, stores, r, cond);
      }
    } else {
      var id, i: nat :| id in source && IsLocal(l, source[id], i) && !Pinned(which, l, source[id], i);
      var r, cond := UnpinnedPoliciesChangeAnswers(which, l, source, stores, id, i);
    }
  }

  lemma PinnedStoreAnswersLikeSource(which: Requests, l: Layout, source: PolicySet, stores: seq<PolicySet>,
                                     r: Request, cond: Conditions)
    requires ValidLayout(l) && Partitionable(l, source) && IsPartition(l, source, stores)
    requires AllPinned(which, l, source) && Admissible(r) && Includes(which, l, r.action)
    ensures AnswersLikeSource(l, source, stores, r, cond)
  {
    PinnedStoreDecidesLikeSource(which, l, source, stores, r, cond);
    var route := ResolveRequest(l, r.action, r.resource.uid.ty);
    if route.Ok? && route.value < |stores| {
      SameSatisfiedSameResponse(stores[route.value], source, ToCedarRequest(r), Graph(r), cond);
    }
  }

  // ---------- A source whose meaning does change ----------

  function ExampleLayout(): Layout {
    Layout([StoreConfig("dns", ["DNS"]), StoreConfig("www", ["WWW"])], {})
  }

  /** `@treetop_store("dns") permit (principal == User::"alice", action, resource);` */
  function ExamplePolicy(): Policy {
    Policy("policy0", Permit, map[STORE_ANNOTATION := "dns"], Eq(Uid(["User"], "alice")), AnyAction, Any, [],
           "", Some(""), true)
  }

  function ExampleRequest(): Request {
    Request(User(Uid(["User"], "alice"), []), ActionId(["WWW"], Uid(["WWW", "Action"], "read")),
            Resource(Uid(["WWW", "Page"], "1"), map[]), map[])
  }

  lemma ExampleLoads()
    ensures var l, p := ExampleLayout(), ExamplePolicy();
      && ValidLayout(l) && IsLocal(l, p, 0) && !IsLocal(l, p, 1) && !IsGlobal(l, p) && !Pinned(RoutedAsNamed, l, p, 0)
  {
    var l, p := ExampleLayout(), ExamplePolicy();
    assert 'd' in "dns" && 'w' in "www";
    assert ValidStoreConfig(l.stores[0]) && ValidStoreConfig(l.stores[1]);
    assert ["DNS"][0] != ["WWW"][0] && ["DNS"][0] != ["User"][0] && ["WWW"][0] != ["User"][0];
    assert PolicyReferences(p) == [["User"]];
    assert ReferencedStores(l, p) == {};
  }

  lemma ExampleRoutesElsewhere()
    ensures var l, r := ExampleLayout(), ExampleRequest();
      && Admissible(r) && Includes(RoutedAsNamed, l, r.action)
      && ResolveRequest(l, r.action, r.resource.uid.ty) == Ok(1)
  {
    var l := ExampleLayout();
    ExampleLoads();
    var action := PlainAction(l, ["WWW"], "read");
    assert action == ExampleRequest().action;
    assert Owns(l, 1, ["WWW"]) && ["WWW"] <= ["WWW", "Page"] && Owns(l, 1, ["WWW", "Page"]);
    OwnerIsUnique(l, ["WWW"]);
    OwnerIsUnique(l, ["WWW", "Page"]);
  }

  /** An annotated policy with an open scope loads, is not pinned, and is missed by the other store. */
  lemma UnscopedAnnotationChangesMeaning(stores: seq<PolicySet>, cond: Conditions)
    requires IsPartition(ExampleLayout(), map["policy0" := ExamplePolicy()], stores)
    ensures var l, source, r := ExampleLayout(), map["policy0" := ExamplePolicy()], ExampleRequest();
      && Partitionable(l, source) && !AllPinned(RoutedAsNamed, l, source)
      && Admissible(r) && Includes(RoutedAsNamed, l, r.action)
      && ResolveRequest(l, r.action, r.resource.uid.ty) == Ok(1)
      && IsAuthorized(source, ToCedarRequest(r), Graph(r), cond) == Response(true, {"policy0"})
      && IsAuthorized(stores[1], ToCedarRequest(r), Graph(r), cond) == Response(false, {})
  {
    var p, r := ExamplePolicy(), ExampleRequest();
    ExampleLoads();
    ExampleRoutesElsewhere();
    assert stores[1] == map[];
    assert Satisfied(p, ToCedarRequest(r), Graph(r), cond);
    OnePermitDecides(p, ToCedarRequest(r), Graph(r), cond);
  }

  /** A satisfied permit alone allows; nothing allows nothing. */
  lemma OnePermitDecides(p: Policy, r: CedarRequest, graph: Entities, cond: Conditions)
    requires p.effect == Permit && Satisfied(p, r, graph, cond)
    ensures IsAuthorized(map[p.id := p], r, graph, cond) == Response(true, {p.id})
    ensures IsAuthorized(map[], r, graph, cond) == Response(false, {})
  {
    var source := map[p.id := p];
    assert SatisfiedIds(source, r, graph, cond) == {p.id};
    assert WithEffect(source, {p.id}, Forbid) == {};
    assert WithEffect(source, {p.id}, Permit) == {p.id};
    assert SatisfiedIds(map[], r, graph, cond) == {};
  }

  // ---------- An action named by a joined component ----------

  function JoinedLayout(): Layout {
    Layout([StoreConfig("dns", ["Co", "DNS"]), StoreConfig("www", ["Co", "WWW"])], {})
  }

  /** `permit (principal, action == Co::DNS::Action::"read", resource);` */
  function JoinedPolicy(): Policy {
    Policy("policy0", Permit, map[], Any, ActionEq(Uid(["Co", "DNS", "Action"], "read")), Any, [], "", Some(""), true)
  }

  /** The same action, its namespace given as the one component `Co::DNS`, on a resource of the other store. */
  function JoinedRequest(): Request {
    Request(User(Uid(["User"], "alice"), []), ActionId(["Co::DNS"], Uid(["Co", "DNS", "Action"], "read")),
            Resource(Uid(["Co", "WWW", "Page"], "1"), map[]), map[])
  }

  lemma JoinedLayoutIsValid()
    ensures ValidLayout(JoinedLayout())
  {
    var l := JoinedLayout();
    assert 'd' in "dns" && 'w' in "www";
    assert ValidStoreConfig(l.stores[0]) && ValidStoreConfig(l.stores[1]);
    assert ["Co", "DNS"][1] != ["Co", "WWW"][1];
  }

  lemma JoinedLayoutOwner(name: Name)
    ensures Owner(JoinedLayout(), name) ==
      (if ["Co", "DNS"] <= name then Some(0) else if ["Co", "WWW"] <= name then Some(1) else None)
  {
    var rest := [StoreConfig("www", ["Co", "WWW"])];
    assert JoinedLayout().stores[1..] == rest;
    assert rest[1..] == [] && FirstOwner(rest[1..], name) == None;
    assert FirstOwner(rest, name) == if ["Co", "WWW"] <= name then Some(0) else None;
  }

  lemma JoinedPolicyIsLocal()
    ensures var l, p := JoinedLayout(), JoinedPolicy();
      && IsLocal(l, p, 0) && !IsGlobal(l, p) && !InstalledIn(l, p, 1)
      && Pinned(RoutedAsNamed, l, p, 0) && !Pinned(AnyComponents, l, p, 0)
  {
    var l, p := JoinedLayout(), JoinedPolicy();
    var ty := ["Co", "DNS", "Action"];
    JoinedLayoutIsValid();
    assert ["Co", "DNS"] <= ty && Namespace(ty) == ["Co", "DNS"];
    JoinedLayoutOwner(["Co", "DNS"]);
    assert PolicyReferences(p) == [ty];
    assert Owns(l, 0, ty) && OwnsOneOf(l, 0, [ty]);
    OwnerIsUnique(l, ty);
    assert ReferencedStores(l, p) == {0};
    LocalOnly(l, p, 0);
    assert Uid(ty, "read") in ListedActions(p.action);
  }

  lemma JoinedRequestRoutesElsewhere()
    ensures var l, r := JoinedLayout(), JoinedRequest();
      && Admissible(r) && !NamedAsRouted(l, r.action)
      && ResolveRequest(l, r.action, r.resource.uid.ty) == Ok(1)
      && ResolveRequest(l, r.action.(namespace := ["Co", "DNS"]), r.resource.uid.ty) == Err(CrossStore(0, 1))
  {
    var l, r := JoinedLayout(), JoinedRequest();
    JoinedLayoutIsValid();
    var joined := JoinedAction(l, ["Co", "DNS"], "read");
    assert "Co" + (SEPARATOR + "DNS") == "Co::DNS";
    assert joined.namespace == ["Co::DNS"];
    JoinedLayoutOwner(r.resource.uid.ty);
    JoinedLayoutOwner(["Co", "DNS"]);
    assert ["Co", "WWW"] <= r.resource.uid.ty && !(["Co", "DNS"] <= r.resource.uid.ty);
    assert Namespace(r.action.uid.ty) == ["Co", "DNS"];
    ComponentsLeadToOwnerOrNowhere(l, r.action);
  }

  /**
   Named by a joined component, an action is matched by its policy and routed past it: the request that the docs say
   fails closed is answered, and by a store that misses the policy. Named by its segments it does fail closed.
   */
  lemma JoinedComponentChangesMeaning(stores: seq<PolicySet>, cond: Conditions)
    requires IsPartition(JoinedLayout(), map["policy0" := JoinedPolicy()], stores)
    ensures var l, source, r := JoinedLayout(), map["policy0" := JoinedPolicy()], JoinedRequest();
      && AllPinned(RoutedAsNamed, l, source) && Admissible(r) && !Includes(RoutedAsNamed, l, r.action)
      && ResolveRequest(l, r.action, r.resource.uid.ty) == Ok(1)
      && ResolveRequest(l, r.action.(namespace := ["Co", "DNS"]), r.resource.uid.ty) == Err(CrossStore(0, 1))
      && IsAuthorized(source, ToCedarRequest(r), Graph(r), cond) == Response(true, {"policy0"})
      && IsAuthorized(stores[1], ToCedarRequest(r), Graph(r), cond) == Response(false, {})
  {
    var l, p, r := JoinedLayout(), JoinedPolicy(), JoinedRequest();
    JoinedLayoutIsValid();
    JoinedPolicyIsLocal();
    JoinedRequestRoutesElsewhere();
    LocalOnly(l, p, 0);
    assert stores[1] == map[];
    assert Satisfied(p, ToCedarRequest(r), Graph(r), cond);
    OnePermitDecides(p, ToCedarRequest(r), Graph(r), cond);
  }
}
