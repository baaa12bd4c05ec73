/**
 Structural policy listing (`src/policy_match.rs`, `src/query.rs`, `src/types/user_policies.rs` and the listing
 methods of `src/engine.rs`): a second scope matcher, and a deduplicating scan over all stores.
 */
module Listing {
  import opened Prelude
  import opened Orders
  import opened Cedar
  import opened Names
  import opened Partition
  import opened Evaluation
  import opened Pinning
  import Labels

  /** In the order Rust derives for the enum. */
  datatype Reason =
    | PrincipalEq | PrincipalIn | PrincipalAny | PrincipalIs | PrincipalIsIn
    | ActionEqReason | ActionInReason | ActionAnyReason
    | ResourceEq | ResourceIn | ResourceAny | ResourceIs | ResourceIsIn

  datatype EffectFilter = AnyEffect | OnlyPermit | OnlyForbid

  datatype PrincipalQuery = PrincipalQuery(uid: Uid, typeName: Name, parents: set<Uid>)

  datatype ResourceQuery = ResourceQuery(uid: Uid, typeName: Name)

  datatype Query = Query(
    principal: PrincipalQuery,
    action: Option<Uid>,
    resource: Option<ResourceQuery>,
    effect: EffectFilter)

  // ---------- Queries ----------

  function PrincipalQueryOf(p: Principal): PrincipalQuery {
    PrincipalQuery(p.uid, p.uid.ty, if p.User? then GroupSet(p) else {p.uid})
  }

  datatype QueryError = EmptyIdentifier | InvalidType

  /** Cedar's parser of type names: the text splits into identifiers, by Cedar's own rule for them. */
  predicate ParsesAsType(parts: seq<string>, isIdentifier: string -> bool) {
    forall k | 0 <= k < |parts| :: isIdentifier(parts[k])
  }

  /** A rule for identifiers that knows the engine's kinds and keeps `::` out of them. */
  ghost predicate IsIdentifierRule(isIdentifier: string -> bool) {
    && (forall s :: isIdentifier(s) ==> IsSegment(s))
    && isIdentifier("User") && isIdentifier("Group")
  }

  function TypedUid(id: string, namespace: seq<string>, kind: string, isIdentifier: string -> bool)
    : Result<Uid, QueryError>
  {
    var ty := SplitPath(JoinPath(namespace + [kind]));
    if id == "" then Err(EmptyIdentifier)
    else if ParsesAsType(ty, isIdentifier) then Ok(Uid(ty, id))
    else Err(InvalidType)
  }

  lemma TypedUidIsQualified(id: string, namespace: seq<string>, kind: string, isIdentifier: string -> bool)
    requires IsIdentifierRule(isIdentifier) && isIdentifier(kind)
    ensures TypedUid(id, namespace, kind, isIdentifier) ==
      if id == "" then Err(EmptyIdentifier)
      else if ParsesAsType(Flatten(namespace), isIdentifier) then Ok(Uid(Flatten(namespace) + [kind], id))
      else Err(InvalidType)
  {
    var ty := SplitPath(JoinPath(namespace + [kind]));
    QualifiedTextIsClean(namespace, kind);
    if AllSegments(Flatten(namespace)) {
      assert ty[|Flatten(namespace)|] == kind;
      assert forall k | 0 <= k < |Flatten(namespace)| :: Flatten(namespace)[k] == ty[k];
    }
    if !AllSegments(Flatten(namespace)) {
      assert !AllSegments(ty);
    }
  }

  /** The user that names, groups and namespace components stand for. */
  function NamedUser(user: string, groups: seq<string>, ns: Name): Principal {
    User(Uid(ns + ["User"], user), seq(|groups|, i requires 0 <= i < |groups| => Uid(ns + ["Group"], groups[i])))
  }

  /** A user given by name asks what the equivalent principal would ask. */
  method ForUser(user: string, groups: seq<string>, namespace: seq<string>, isIdentifier: string -> bool)
    returns (r: Result<PrincipalQuery, QueryError>)
    requires IsIdentifierRule(isIdentifier)
    ensures r.Ok? <==> user != "" && "" !in groups && ParsesAsType(Flatten(namespace), isIdentifier)
    ensures r == Err(InvalidType) <==> user != "" && !ParsesAsType(Flatten(namespace), isIdentifier)
    ensures r.Ok? ==>
      var principal := NamedUser(user, groups, Flatten(namespace));
      WellFormedPrincipal(principal) && r.value == PrincipalQueryOf(principal)
  {
    TypedUidIsQualified(user, namespace, "User", isIdentifier);
    var uid := TypedUid(user, namespace, "User", isIdentifier);
    if uid.Err? {
      return Err(uid.error);
    }
    var parents := GroupParents(groups, namespace, isIdentifier);
    if parents.Err? {
      return Err(parents.error);
    }
    NamedUserAsks(user, groups, Flatten(namespace), parents.value);
    r := Ok(PrincipalQuery(uid.value, uid.value.ty, parents.value));
  }

  /** The loop over groups; the namespace has already been accepted for the user. */
  method GroupParents(groups: seq<string>, namespace: seq<string>, isIdentifier: string -> bool)
    returns (r: Result<set<Uid>, QueryError>)
    requires IsIdentifierRule(isIdentifier) && ParsesAsType(Flatten(namespace), isIdentifier)
    ensures r == if "" in groups then Err(EmptyIdentifier)
                 else Ok(set i | 0 <= i < |groups| :: Uid(Flatten(namespace) + ["Group"], groups[i]))
  {
    var parents: set<Uid> := {};
    for k := 0 to |groups|
      invariant parents == set i | 0 <= i < k :: Uid(Flatten(namespace) + ["Group"], groups[i])
      invariant forall i | 0 <= i < k :: groups[i] != ""
    {
      TypedUidIsQualified(groups[k], namespace, "Group", isIdentifier);
      var parent := TypedUid(groups[k], namespace, "Group", isIdentifier);
      if parent.Err? {
        return Err(parent.error);
      }
      parents := parents + {parent.value};
    }
    r := Ok(parents);
  }

  lemma NamedUserAsks(user: string, groups: seq<string>, ns: Name, parents: set<Uid>)
    requires user != "" && forall i | 0 <= i < |groups| :: groups[i] != ""
    requires parents == set i | 0 <= i < |groups| :: Uid(ns + ["Group"], groups[i])
    ensures var principal := NamedUser(user, groups, ns);
      && WellFormedPrincipal(principal)
      && PrincipalQueryOf(principal) == PrincipalQuery(principal.uid, principal.uid.ty, parents)
  {
    var principal := NamedUser(user, groups, ns);
    assert Namespace(principal.uid.ty) == ns;
    forall g ensures g in GroupSet(principal) <==> g in parents {
      if g in parents {
        var i :| 0 <= i < |groups| && Uid(ns + ["Group"], groups[i]) == g;
        assert principal.groups[i] == g;
      }
    }
  }

  method ForGroup(group: string, namespace: seq<string>, isIdentifier: string -> bool)
    returns (r: Result<PrincipalQuery, QueryError>)
    requires IsIdentifierRule(isIdentifier)
    ensures r.Ok? <==> group != "" && ParsesAsType(Flatten(namespace), isIdentifier)
    ensures r == Err(EmptyIdentifier) <==> group == ""
    ensures r.Ok? ==>
      var principal := Group(Uid(Flatten(namespace) + ["Group"], group));
      WellFormedPrincipal(principal) && r.value == PrincipalQueryOf(principal)
  {
    TypedUidIsQualified(group, namespace, "Group", isIdentifier);
    var uid := TypedUid(group, namespace, "Group", isIdentifier);
    if uid.Err? {
      return Err(uid.error);
    }
    r := Ok(PrincipalQuery(uid.value, uid.value.ty, {uid.value}));
  }

  method FromPrincipal(p: Principal) returns (q: PrincipalQuery)
    ensures q == PrincipalQueryOf(p)
  {
    var parents: set<Uid> := {};
    match p {
      case User(_, groups) =>
        for k := 0 to |groups|
          invariant parents == set g | g in groups[..k]
        {
          parents := parents + {groups[k]};
          assert groups[..k + 1] == groups[..k] + [groups[k]];
        }
        assert groups[..|groups|] == groups;
      case Group(uid) => parents := {uid};
    }
    q := PrincipalQuery(p.uid, p.uid.ty, parents);
  }

  function QueryOf(r: Request, effect: EffectFilter): Query {
    Query(PrincipalQueryOf(r.principal), Some(r.action.uid),
          Some(ResourceQuery(r.resource.uid, r.resource.uid.ty)), effect)
  }

  // ---------- The matcher ----------

  function PrincipalMatchReason(c: EntityConstraint, q: PrincipalQuery): Option<Reason> {
    match c
    case Eq(u) => if u == q.uid then Some(PrincipalEq) else None
    case In(u) => if u == q.uid || u in q.parents then Some(PrincipalIn) else None
    case Any => Some(PrincipalAny)
    case Is(ty) => if ty == q.typeName then Some(PrincipalIs) else None
    case IsIn(ty, u) => if ty == q.typeName && (u == q.uid || u in q.parents) then Some(PrincipalIsIn) else None
  }

  function ResourceMatchReason(c: EntityConstraint, query: Option<ResourceQuery>): Option<Option<Reason>> {
    match query
    case None => Some(None)
    case Some(q) =>
      match c
      case Eq(u) => if u == q.uid then Some(Some(ResourceEq)) else None
      case In(u) => if u == q.uid then Some(Some(ResourceIn)) else None
      case Any => Some(Some(ResourceAny))
      case Is(ty) => if ty == q.typeName then Some(Some(ResourceIs)) else None
      case IsIn(ty, u) => if ty == q.typeName && u == q.uid then Some(Some(ResourceIsIn)) else None
  }

  function ActionMatchReason(c: ActionConstraint, query: Option<Uid>): Option<Option<Reason>> {
    match query
    case None => Some(None)
    case Some(uid) =>
      match c
      case ActionEq(u) => if u == uid then Some(Some(ActionEqReason)) else None
      case ActionIn(us) => if uid in us then Some(Some(ActionInReason)) else None
      case AnyAction => Some(Some(ActionAnyReason))
  }

  predicate MatchesEffect(effect: Effect, filter: EffectFilter) {
    match filter
    case AnyEffect => true
    case OnlyPermit => effect == Permit
    case OnlyForbid => effect == Forbid
  }

  function OptionalReason(r: Option<Reason>): seq<Reason> {
    if r.Some? then [r.value] else []
  }

  /** The reasons a policy is listed for, or None where one of its constraints does not match. */
  function MatchReasons(p: Policy, q: Query): Option<seq<Reason>> {
    if !MatchesEffect(p.effect, q.effect) then None
    else match PrincipalMatchReason(p.principal, q.principal)
      case None => None
      case Some(principal) =>
        match ActionMatchReason(p.action, q.action)
        case None => None
        case Some(action) =>
          match ResourceMatchReason(p.resource, q.resource)
          case None => None
          case Some(resource) => Some([principal] + OptionalReason(action) + OptionalReason(resource))
  }

  // ---------- What the matcher decides ----------

  ghost predicate AdmitsEffect(filter: EffectFilter, effect: Effect) {
    (filter == OnlyPermit ==> effect == Permit) && (filter == OnlyForbid ==> effect == Forbid)
  }

  /** The named entity is the principal or one of its parents. */
  ghost predicate IsAmong(u: Uid, q: PrincipalQuery) {
    u == q.uid || u in q.parents
  }

  ghost predicate PrincipalHolds(c: EntityConstraint, q: PrincipalQuery) {
    && (c.Eq? ==> c.uid == q.uid)
    && (c.In? || c.IsIn? ==> IsAmong(c.uid, q))
    && (c.Is? || c.IsIn? ==> c.ty == q.typeName)
  }

  ghost predicate ResourceHolds(c: EntityConstraint, q: ResourceQuery) {
    && (c.Eq? || c.In? || c.IsIn? ==> c.uid == q.uid)
    && (c.Is? || c.IsIn? ==> c.ty == q.typeName)
  }

  ghost predicate ActionHolds(c: ActionConstraint, uid: Uid) {
    !c.AnyAction? ==> uid in ListedActions(c)
  }

  function PrincipalForm(c: EntityConstraint): Reason {
    match c
    case Any => PrincipalAny
    case Eq(_) => PrincipalEq
    case In(_) => PrincipalIn
    case Is(_) => PrincipalIs
    case IsIn(_, _) => PrincipalIsIn
  }

  function ActionForm(c: ActionConstraint): Reason {
    match c
    case AnyAction => ActionAnyReason
    case ActionEq(_) => ActionEqReason
    case ActionIn(_) => ActionInReason
  }

  function ResourceForm(c: EntityConstraint): Reason {
    match c
    case Any => ResourceAny
    case Eq(_) => ResourceEq
    case In(_) => ResourceIn
    case Is(_) => ResourceIs
    case IsIn(_, _) => ResourceIsIn
  }

  /** The effect is admitted, the principal constraint holds, and the others do for the parts the query has. */
  ghost predicate Satisfies(p: Policy, q: Query) {
    && AdmitsEffect(q.effect, p.effect) && PrincipalHolds(p.principal, q.principal)
    && (q.action.Some? ==> ActionHolds(p.action, q.action.value))
    && (q.resource.Some? ==> ResourceHolds(p.resource, q.resource.value))
  }

  /** One reason for each part of the query, by the form of the constraint it met. */
  function FormReasons(p: Policy, q: Query): seq<Reason> {
    [PrincipalForm(p.principal)]
    + (if q.action.Some? then [ActionForm(p.action)] else [])
    + (if q.resource.Some? then [ResourceForm(p.resource)] else [])
  }

  /** For every query, with or without an action and a resource: who is matched, and for which reasons. */
  lemma MatcherIsExact(p: Policy, q: Query)
    ensures MatchReasons(p, q) == if Satisfies(p, q) then Some(FormReasons(p, q)) else None
  {
    assert MatchesEffect(p.effect, q.effect) <==> AdmitsEffect(q.effect, p.effect);
    assert PrincipalMatchReason(p.principal, q.principal) ==
      if PrincipalHolds(p.principal, q.principal) then Some(PrincipalForm(p.principal)) else None;
    if q.action.Some? {
      assert ActionMatchReason(p.action, q.action) ==
        if ActionHolds(p.action, q.action.value) then Some(Some(ActionForm(p.action))) else None;
    }
    if q.resource.Some? {
      assert ResourceMatchReason(p.resource, q.resource) ==
        if ResourceHolds(p.resource, q.resource.value) then Some(Some(ResourceForm(p.resource))) else None;
    }
  }

  /** A request asked about in part: leaving out its action or its resource leaves out that constraint only. */
  lemma PartsAgreeWithAuthorizer(p: Policy, r: Request, q: Query)
    requires Admissible(r) && q.principal == PrincipalQueryOf(r.principal)
    requires q.action.Some? ==> q.action.value == r.action.uid
    requires q.resource.Some? ==> q.resource.value == ResourceQuery(r.resource.uid, r.resource.uid.ty)
    ensures MatchReasons(p, q).Some? <==>
      && AdmitsEffect(q.effect, p.effect)
      && EntityScopeHolds(p.principal, r.principal.uid, Graph(r))
      && (q.action.Some? ==> ActionScopeHolds(p.action, r.action.uid, Graph(r)))
      && (q.resource.Some? ==> EntityScopeHolds(p.resource, r.resource.uid, Graph(r)))
  {
    MatcherIsExact(p, q);
    ScopeOnRequestGraph(p, r);
  }

  /** The matcher and the authorizer agree: for a request, constraints match exactly where the Cedar scope holds. */
  lemma MatcherAgreesWithAuthorizer(p: Policy, r: Request, effect: EffectFilter)
    requires Admissible(r)
    ensures MatchReasons(p, QueryOf(r, effect)).Some? <==> MatchesEffect(p.effect, effect) && MatchesScope(p, r)
  {
    ScopeOnRequestGraph(p, r);
  }

  // ---------- Candidates ----------

  datatype PolicyMatch = PolicyMatch(cedarId: PolicyId, reasons: seq<Reason>)

  datatype PolicyCandidates = PolicyCandidates(
    user: string,
    policies: seq<Policy>,
    actions: seq<Uid>,
    matches: seq<PolicyMatch>)

  function ReasonRank(r: Reason): nat {
    match r
    case PrincipalEq => 0 case PrincipalIn => 1 case PrincipalAny => 2 case PrincipalIs => 3 case PrincipalIsIn => 4
    case ActionEqReason => 5 case ActionInReason => 6 case ActionAnyReason => 7
    case ResourceEq => 8 case ResourceIn => 9 case ResourceAny => 10 case ResourceIs => 11 case ResourceIsIn => 12
  }

  predicate ReasonLeq(a: Reason, b: Reason) {
    ReasonRank(a) <= ReasonRank(b)
  }

  const DECLARED: seq<Reason> :=
    [PrincipalEq, PrincipalIn, PrincipalAny, PrincipalIs, PrincipalIsIn, ActionEqReason, ActionInReason,
     ActionAnyReason, ResourceEq, ResourceIn, ResourceAny, ResourceIs, ResourceIsIn]

  /** Reasons are ordered as they are declared. */
  lemma ReasonsAreOrderedAsDeclared()
    ensures TotalOrder(ReasonLeq) && StrictlyAscending(DECLARED, ReasonLeq)
    ensures forall r: Reason :: r in DECLARED
  {
    forall r: Reason ensures r in DECLARED {
      RankIsPosition(r);
    }
    forall i, j | 0 <= i < j < |DECLARED| ensures ReasonLeq(DECLARED[i], DECLARED[j]) && DECLARED[i] != DECLARED[j] {
      PositionIsRank(i);
      PositionIsRank(j);
    }
  }

  lemma RankIsPosition(r: Reason)
    ensures ReasonRank(r) < |DECLARED| && DECLARED[ReasonRank(r)] == r
  {
  }

  lemma PositionIsRank(i: nat)
    requires i < |DECLARED|
    ensures ReasonRank(DECLARED[i]) == i
  {
    assert i == 0 || i == 1 || i == 2 || i == 3 || i == 4 || i == 5 || i == 6 || i == 7 || i == 8 || i == 9
        || i == 10 || i == 11 || i == 12;
  }

  /** A matched policy's reasons are already in order: principal, action, resource. */
  lemma ReasonsAreInOrder(p: Policy, q: Query)
    ensures SortDedup(FormReasons(p, q), ReasonLeq) == FormReasons(p, q)
  {
    var reasons := FormReasons(p, q);
    SortDedupCanonical(reasons, ReasonLeq);
    assert StrictlyAscending(reasons, ReasonLeq);
    StrictlyAscendingUnique(SortDedup(reasons, ReasonLeq), reasons, ReasonLeq);
  }

  function PolicyKey(p: Policy): PolicyId {
    p.id
  }

  /** The one listing a source has for a query: who is in it, in which order, with which reasons and actions. */
  ghost predicate IsListingOf(c: PolicyCandidates, source: PolicySet, q: Query, uidLeq: (Uid, Uid) -> bool) {
    && StrictlySorted(c.policies, PolicyKey, StringLeq)
    && (forall p :: p in c.policies <==> p.id in source && source[p.id] == p && MatchReasons(p, q).Some?)
    && |c.matches| == |c.policies|
    && (forall i | 0 <= i < |c.policies| ::
          && MatchReasons(c.policies[i], q).Some?
          && c.matches[i] == PolicyMatch(c.policies[i].id, SortDedup(MatchReasons(c.policies[i], q).value, ReasonLeq)))
    && StrictlyAscending(c.actions, uidLeq)
    && (forall u :: u in c.actions <==>
          exists p :: p in c.policies && p.effect == Permit && u in ListedActions(p.action))
  }

  lemma ListingIsUnique(a: PolicyCandidates, b: PolicyCandidates, source: PolicySet, q: Query,
                        uidLeq: (Uid, Uid) -> bool)
    requires TotalOrder(uidLeq) && a.user == b.user
    requires IsListingOf(a, source, q, uidLeq) && IsListingOf(b, source, q, uidLeq)
    ensures a == b
  {
    StringOrder();
    forall p ensures p in a.policies <==> p in b.policies {
      assert p in a.policies <==> p.id in source && source[p.id] == p && MatchReasons(p, q).Some?;
    }
    StrictlySortedUnique(a.policies, b.policies, PolicyKey, StringLeq);
    StrictlyAscendingUnique(a.actions, b.actions, uidLeq);
    assert a.matches == b.matches;
  }

  /** A listing said without the matcher: which policies it holds and which reasons stand beside each. */
  lemma ListingIsExact(c: PolicyCandidates, source: PolicySet, q: Query, uidLeq: (Uid, Uid) -> bool)
    requires IsListingOf(c, source, q, uidLeq)
    ensures forall p :: p in c.policies <==> p.id in source && source[p.id] == p && Satisfies(p, q)
    ensures |c.matches| == |c.policies|
    ensures forall i | 0 <= i < |c.policies| ::
        c.matches[i] == PolicyMatch(c.policies[i].id, FormReasons(c.policies[i], q))
  {
    forall p ensures p in c.policies <==> p.id in source && source[p.id] == p && Satisfies(p, q) {
      MatcherIsExact(p, q);
    }
    forall i | 0 <= i < |c.policies|
      ensures c.matches[i] == PolicyMatch(c.policies[i].id, FormReasons(c.policies[i], q))
    {
      MatcherIsExact(c.policies[i], q);
      ReasonsAreInOrder(c.policies[i], q);
    }
  }

  // ---------- Building them ----------

  type Match = (Policy, seq<Reason>)

  function MatchKey(m: Match): PolicyId {
    m.0.id
  }

  ghost predicate MatchesOf(ms: seq<Match>, q: Query) {
    forall i | 0 <= i < |ms| :: MatchReasons(ms[i].0, q) == Some(ms[i].1)
  }

  /** In the order of a stable sort by id, with each policy's reasons sorted and without repetition. */
  ghost predicate Presents(c: PolicyCandidates, found: seq<Match>) {
    var sorted := SortByKey(found, MatchKey, StringLeq);
    && |c.policies| == |c.matches| == |sorted|
    && (forall i | 0 <= i < |sorted| :: c.policies[i] == sorted[i].0)
    && forall i | 0 <= i < |sorted| ::
         c.matches[i] == PolicyMatch(sorted[i].0.id, SortDedup(sorted[i].1, ReasonLeq))
  }

  /** Any policies with any reasons, in any order, repeated or not. */
  method NewWithMatches(user: string, found: seq<Match>, uidLeq: (Uid, Uid) -> bool) returns (c: PolicyCandidates)
    requires TotalOrder(uidLeq)
    ensures c.user == user && Presents(c, found)
    ensures |c.policies| == |c.matches| == |found| && SortedByKey(c.policies, PolicyKey, StringLeq)
    ensures forall p :: p in c.policies <==> exists i | 0 <= i < |found| :: found[i].0 == p
    ensures forall i | 0 <= i < |c.matches| :: StrictlyAscending(c.matches[i].reasons, ReasonLeq)
    ensures StrictlyAscending(c.actions, uidLeq)
    ensures forall u :: u in c.actions <==>
        exists p :: p in c.policies && p.effect == Permit && u in ListedActions(p.action)
  {
    var sorted := SortByKey(found, MatchKey, StringLeq);
    var policies, matches := Unzip(sorted);
    SortedMatches(found, policies);
    ReasonsAreCanonical(sorted);
    var actions := CandidateActions(policies, uidLeq);
    c := PolicyCandidates(user, policies, actions, matches);
  }

  lemma SortedMatches(found: seq<Match>, policies: seq<Policy>)
    requires var sorted := SortByKey(found, MatchKey, StringLeq);
      |policies| == |sorted| && forall i | 0 <= i < |sorted| :: policies[i] == sorted[i].0
    ensures |policies| == |found| && SortedByKey(policies, PolicyKey, StringLeq)
    ensures forall p :: p in policies <==> exists i | 0 <= i < |found| :: found[i].0 == p
  {
    var sorted := SortByKey(found, MatchKey, StringLeq);
    StringOrder();
    SortSorts(found, MatchKey, StringLeq);
    assert |multiset(sorted)| == |multiset(found)|;
    forall m ensures m in sorted <==> m in found {
      assert m in multiset(sorted) <==> m in multiset(found);
    }
    FirstsAreSame(found, sorted, policies);
    forall i, j | 0 <= i < j < |policies| ensures StringLeq(PolicyKey(policies[i]), PolicyKey(policies[j])) {
      assert StringLeq(MatchKey(sorted[i]), MatchKey(sorted[j]));
    }
  }

  lemma ReasonsAreCanonical(ms: seq<Match>)
    ensures forall i | 0 <= i < |ms| ::
      && StrictlyAscending(SortDedup(ms[i].1, ReasonLeq), ReasonLeq)
      && forall r :: r in SortDedup(ms[i].1, ReasonLeq) <==> r in ms[i].1
  {
    forall i | 0 <= i < |ms|
      ensures StrictlyAscending(SortDedup(ms[i].1, ReasonLeq), ReasonLeq)
        && forall r :: r in SortDedup(ms[i].1, ReasonLeq) <==> r in ms[i].1
    {
      SortDedupCanonical(ms[i].1, ReasonLeq);
    }
  }

  /** Presenting matches of distinct policies gives the listing of those matches. */
  lemma PresentationLists(c: PolicyCandidates, found: seq<Match>, q: Query)
    requires Presents(c, found) && MatchesOf(found, q) && DistinctKeys(found, MatchKey)
    ensures StrictlySorted(c.policies, PolicyKey, StringLeq) && |c.matches| == |c.policies|
    ensures forall i | 0 <= i < |c.policies| ::
        && MatchReasons(c.policies[i], q).Some?
        && c.matches[i] == PolicyMatch(c.policies[i].id, SortDedup(MatchReasons(c.policies[i], q).value, ReasonLeq))
  {
    var sorted := SortByKey(found, MatchKey, StringLeq);
    StringOrder();
    SortStrict(found, MatchKey, StringLeq);
    forall i | 0 <= i < |sorted| ensures MatchReasons(sorted[i].0, q) == Some(sorted[i].1) {
      assert sorted[i] in found;
    }
    forall i, j | 0 <= i < j < |c.policies|
      ensures StringLeq(PolicyKey(c.policies[i]), PolicyKey(c.policies[j]))
      ensures PolicyKey(c.policies[i]) != PolicyKey(c.policies[j])
    {
      assert StringLeq(MatchKey(sorted[i]), MatchKey(sorted[j])) && MatchKey(sorted[i]) != MatchKey(sorted[j]);
    }
  }

  /** Policies on one side, their sorted and deduplicated reasons on the other. */
  method Unzip(sorted: seq<Match>) returns (policies: seq<Policy>, matches: seq<PolicyMatch>)
    ensures |policies| == |matches| == |sorted|
    ensures forall i | 0 <= i < |sorted| :: policies[i] == sorted[i].0
    ensures forall i | 0 <= i < |sorted| :: matches[i] == PolicyMatch(sorted[i].0.id, SortDedup(sorted[i].1, ReasonLeq))
  {
    policies, matches := [], [];
    for k := 0 to |sorted|
      invariant |policies| == |matches| == k
      invariant forall i | 0 <= i < k :: policies[i] == sorted[i].0
      invariant forall i | 0 <= i < k :: matches[i] == PolicyMatch(sorted[i].0.id, SortDedup(sorted[i].1, ReasonLeq))
    {
      matches := matches + [PolicyMatch(sorted[k].0.id, SortDedup(sorted[k].1, ReasonLeq))];
      policies := policies + [sorted[k].0];
    }
  }

  lemma FirstsAreSame(found: seq<Match>, sorted: seq<Match>, policies: seq<Policy>)
    requires forall m :: m in sorted <==> m in found
    requires |policies| == |sorted| && forall i | 0 <= i < |sorted| :: policies[i] == sorted[i].0
    ensures forall p :: p in policies <==> exists i | 0 <= i < |found| :: found[i].0 == p
  {
    forall p ensures p in policies <==> exists i | 0 <= i < |found| :: found[i].0 == p {
      if p in policies {
        var i :| 0 <= i < |policies| && policies[i] == p;
        assert sorted[i] in found;
      }
      if i :| 0 <= i < |found| && found[i].0 == p {
        assert found[i] in sorted;
        var k :| 0 <= k < |sorted| && sorted[k] == found[i];
        assert policies[k] == p;
      }
    }
  }

  /** Actions named by permits; an unconstrained action names none. */
  method CandidateActions(policies: seq<Policy>, uidLeq: (Uid, Uid) -> bool) returns (actions: seq<Uid>)
    requires TotalOrder(uidLeq)
    ensures StrictlyAscending(actions, uidLeq)
    ensures forall u :: u in actions <==>
        exists p :: p in policies && p.effect == Permit && u in ListedActions(p.action)
  {
    actions := [];
    for k := 0 to |policies|
      invariant forall u :: u in actions <==>
          exists i | 0 <= i < k :: policies[i].effect == Permit && u in ListedActions(policies[i].action)
    {
      if policies[k].effect == Permit {
        match policies[k].action {
          case ActionEq(u) => actions := actions + [u];
          case ActionIn(us) => actions := actions + us;
          case AnyAction =>
        }
      }
    }
    forall u ensures u in actions <==> exists p :: p in policies && p.effect == Permit && u in ListedActions(p.action) {
      if p :| p in policies && p.effect == Permit && u in ListedActions(p.action) {
        var i :| 0 <= i < |policies| && policies[i] == p;
      }
    }
    SortDedupCanonical(actions, uidLeq);
    actions := SortDedup(actions, uidLeq);
  }

  /** The sets a scan visits: the only one, or every store in turn. */
  function AllSets(sets: PolicySets): seq<PolicySet> {
    match sets
    case Monolithic(policies) => [policies]
    case Scoped(_, stores) => stores
  }

  /** The sets hold the source policies, each at least once and unchanged, and no others. */
  ghost predicate Covers(all: seq<PolicySet>, source: PolicySet) {
    && (forall i, id | 0 <= i < |all| && id in all[i] :: id in source && all[i][id] == source[id])
    && (forall id | id in source :: exists i | 0 <= i < |all| :: id in all[i])
  }

  lemma AllSetsCoverSource(sets: PolicySets, source: PolicySet)
    requires SetsOf(sets, source)
    ensures Covers(AllSets(sets), source)
  {
    forall id | id in source ensures exists i | 0 <= i < |AllSets(sets)| :: id in AllSets(sets)[i] {
      if sets.Monolithic? {
        assert id in AllSets(sets)[0];
      } else {
        EveryPolicyIsPlaced(sets.layout, source, sets.stores, id);
        if IsGlobal(sets.layout, source[id]) {
          assert id in AllSets(sets)[0];
        } else {
          var i :| 0 <= i < |sets.stores| && id in sets.stores[i];
          assert id in AllSets(sets)[i];
        }
      }
    }
  }

  lemma EverythingSeen(all: seq<PolicySet>, source: PolicySet, seen: set<PolicyId>)
    requires Covers(all, source) && seen <= source.Keys
    requires forall i | 0 <= i < |all| :: all[i].Keys <= seen
    ensures seen == source.Keys
  {
    forall id | id in source ensures id in seen {
      var i :| 0 <= i < |all| && id in all[i];
      assert id in all[i].Keys;
    }
  }

  /** What has been found once the policies in `seen` have been looked at. */
  ghost predicate FoundAmong(found: seq<Match>, seen: set<PolicyId>, source: PolicySet, q: Query) {
    && DistinctKeys(found, MatchKey)
    && seen <= source.Keys
    && (forall i | 0 <= i < |found| ::
          && found[i].0.id in seen && found[i].0 == source[found[i].0.id]
          && MatchReasons(found[i].0, q) == Some(found[i].1))
    && (forall id | id in seen && MatchReasons(source[id], q).Some? ::
          exists i | 0 <= i < |found| :: found[i].0.id == id)
  }

  /** One policy that has not been looked at yet. */
  method Visit(p: Policy, found: seq<Match>, seen: set<PolicyId>, q: Query, ghost source: PolicySet)
    returns (found': seq<Match>)
    requires KeyedById(source) && FoundAmong(found, seen, source, q)
    requires p.id in source && source[p.id] == p && p.id !in seen
    ensures FoundAmong(found', seen + {p.id}, source, q)
  {
    found' := found;
    if MatchesEffect(p.effect, q.effect) {
      var principal := PrincipalMatchReason(p.principal, q.principal);
      var action := ActionMatchReason(p.action, q.action);
      var resource := ResourceMatchReason(p.resource, q.resource);
      if principal.Some? && action.Some? && resource.Some? {
        var reasons := [principal.value];
        if action.value.Some? {
          reasons := reasons + [action.value.value];
        }
        if resource.value.Some? {
          reasons := reasons + [resource.value.value];
        }
        assert reasons == [principal.value] + OptionalReason(action.value) + OptionalReason(resource.value);
        assert MatchReasons(p, q) == Some(reasons);
        found' := found + [(p, reasons)];
        assert found'[|found|].0.id == p.id;
        forall id | id in seen && MatchReasons(source[id], q).Some?
          ensures exists i | 0 <= i < |found'| :: found'[i].0.id == id
        {
          var i :| 0 <= i < |found| && found[i].0.id == id;
          assert found'[i] == found[i];
        }
      }
    }
  }

  /** One set of the scan: policies already seen in an earlier set are skipped. */
  method VisitSet(policies: PolicySet, found: seq<Match>, seen: set<PolicyId>, q: Query, ghost source: PolicySet)
    returns (found': seq<Match>, seen': set<PolicyId>)
    requires KeyedById(source) && FoundAmong(found, seen, source, q)
    requires forall id | id in policies :: id in source && policies[id] == source[id]
    ensures FoundAmong(found', seen', source, q) && seen' == seen + policies.Keys
  {
    found', seen' := found, seen;
    var todo := policies.Keys;
    while todo != {}
      invariant todo <= policies.Keys
      invariant FoundAmong(found', seen', source, q)
      invariant seen' == seen + (policies.Keys - todo)
    {
      var id :| id in todo;
      todo := todo - {id};
      if id !in seen' {
        found' := Visit(policies[id], found', seen', q, source);
        seen' := seen' + {id};
      }
    }
  }

  method FindMatches(all: seq<PolicySet>, q: Query, ghost source: PolicySet) returns (found: seq<Match>)
    requires KeyedById(source) && Covers(all, source)
    ensures FoundAmong(found, source.Keys, source, q)
  {
    found := [];
    var seen: set<PolicyId> := {};
    for k := 0 to |all|
      invariant FoundAmong(found, seen, source, q)
      invariant forall i | 0 <= i < k :: all[i].Keys <= seen
    {
      found, seen := VisitSet(all[k], found, seen, q, source);
    }
    EverythingSeen(all, source, seen);
  }

  /** list_policies_dispatch: the listing depends on the source alone, not on how it is spread over stores. */
  method ListPolicies(user: string, sets: PolicySets, q: Query, uidLeq: (Uid, Uid) -> bool, ghost source: PolicySet)
    returns (c: PolicyCandidates)
    requires KeyedById(source) && SetsOf(sets, source) && TotalOrder(uidLeq)
    ensures c.user == user && IsListingOf(c, source, q, uidLeq)
    ensures forall p :: p in c.policies <==> p.id in source && source[p.id] == p && Satisfies(p, q)
  {
    AllSetsCoverSource(sets, source);
    var found := FindMatches(AllSets(sets), q, source);
    FoundEverything(found, source, q);
    c := NewWithMatches(user, found, uidLeq);
    PresentationLists(c, found, q);
    ListingIsExact(c, source, q, uidLeq);
  }

  lemma FoundEverything(found: seq<Match>, source: PolicySet, q: Query)
    requires KeyedById(source) && FoundAmong(found, source.Keys, source, q)
    ensures MatchesOf(found, q)
    ensures forall p :: (exists i | 0 <= i < |found| :: found[i].0 == p) <==>
        p.id in source && source[p.id] == p && MatchReasons(p, q).Some?
  {
    forall p: Policy | p.id in source && source[p.id] == p && MatchReasons(p, q).Some?
      ensures exists i | 0 <= i < |found| :: found[i].0 == p
    {
      var i :| 0 <= i < |found| && found[i].0.id == p.id;
    }
  }

  /** Every policy in an Allow's evidence is listed, among permits, for the same request. */
  lemma AllowEvidenceIsListed(state: EngineState, source: PolicySet, r: Request, cond: Conditions,
                              c: PolicyCandidates, uidLeq: (Uid, Uid) -> bool, id: PolicyId)
    requires SnapshotOf(state.policy, source) && WellFormedRequest(r)
    requires IsListingOf(c, source, QueryOf(r, OnlyPermit), uidLeq)
    requires id in source && source[id].effect == Permit
    requires var e := EvaluateState(state, r, cond);
      e.Ok? && e.value.decision.Allow? && PermitMetadata(source[id]) in e.value.decision.policies
    ensures source[id] in c.policies
  {
    var labelled := r.(resource := LabelledResource(state, r.resource));
    if state.labels.Some? {
      Labels.UnownedAttributesSurvive(state.labels.value, r.resource);
    }
    ChosenSetIsFromSource(state.policy.sets, source, r);
    var chosen := Resolve(state.policy.sets, r).value;
    EvidenceIsSatisfied(state.policy, source, chosen, ToCedarRequest(r), Graph(labelled), cond, id);
    assert MatchesScope(source[id], labelled);
    MatcherAgreesWithAuthorizer(source[id], labelled, OnlyPermit);
  }

  /** A permit whose record is among the evidence is one of those that decided. */
  lemma EvidenceIsSatisfied(snapshot: PolicySnapshot, source: PolicySet, chosen: PolicySet,
                            r: CedarRequest, graph: Entities, cond: Conditions, id: PolicyId)
    requires HasMetadataOf(snapshot, source) && KeyedById(source)
    requires forall x | x in chosen :: x in source && chosen[x] == source[x]
    requires id in source && source[id].effect == Permit
    requires PermitMetadata(source[id]) in ExtractPermits(snapshot, IsAuthorized(chosen, r, graph, cond))
    ensures Satisfied(source[id], r, graph, cond)
  {
    var reasons := IsAuthorized(chosen, r, graph, cond).reasons;
    var reason :|
      reason in reasons && reason in snapshot.permits && snapshot.permits[reason] == PermitMetadata(source[id]);
    assert snapshot.permits[reason].cedarId == reason;
  }

  /** policies(): every source policy exactly once; in id order when the engine is partitioned. */
  method Policies(sets: PolicySets, ghost source: PolicySet) returns (r: seq<Policy>)
    requires KeyedById(source) && SetsOf(sets, source)
    ensures DistinctKeys(r, PolicyKey)
    ensures forall p :: p in r <==> p.id in source && source[p.id] == p
    ensures sets.Scoped? ==> StrictlySorted(r, PolicyKey, StringLeq)
  {
    AllSetsCoverSource(sets, source);
    r := UnseenOf(AllSets(sets), source);
    assert OnceEach(r, source.Keys, source);
    if sets.Scoped? {
      StringOrder();
      SortStrict(r, PolicyKey, StringLeq);
      r := SortByKey(r, PolicyKey, StringLeq);
    }
  }

  method UnseenOf(all: seq<PolicySet>, ghost source: PolicySet) returns (r: seq<Policy>)
    requires KeyedById(source) && Covers(all, source)
    ensures OnceEach(r, source.Keys, source)
  {
    r := [];
    var seen: set<PolicyId> := {};
    for k := 0 to |all|
      invariant OnceEach(r, seen, source)
      invariant forall i | 0 <= i < k :: all[i].Keys <= seen
    {
      CoveredAlike(all, source, k);
      r, seen := AddUnseen(all[k], r, seen, source);
    }
    EverythingSeen(all, source, seen);
    assert OnceEach(r, seen, source);
  }

  lemma CoveredAlike(all: seq<PolicySet>, source: PolicySet, k: nat)
    requires Covers(all, source) && k < |all|
    ensures forall id | id in all[k] :: id in source && all[k][id] == source[id]
  {
  }

  /** The sequence holds each seen source policy once and nothing else. */
  ghost predicate OnceEach(r: seq<Policy>, seen: set<PolicyId>, source: PolicySet) {
    && DistinctKeys(r, PolicyKey)
    && seen <= source.Keys
    && forall p :: p in r <==> p.id in seen && source[p.id] == p
  }

  method AddUnseen(policies: PolicySet, r: seq<Policy>, seen: set<PolicyId>, ghost source: PolicySet)
    returns (r': seq<Policy>, seen': set<PolicyId>)
    requires KeyedById(source) && OnceEach(r, seen, source)
    requires forall id | id in policies :: id in source && policies[id] == source[id]
    ensures OnceEach(r', seen', source) && seen' == seen + policies.Keys
  {
    r', seen' := r, seen;
    var todo := policies.Keys;
    while todo != {}
      invariant todo <= policies.Keys
      invariant OnceEach(r', seen', source) && seen' == seen + (policies.Keys - todo)
    {
      var id :| id in todo;
      todo := todo - {id};
      if id !in seen' {
        OnceEachGrows(r', seen', source, policies[id]);
        r' := r' + [policies[id]];
        seen' := seen' + {id};
      }
    }
  }

  lemma OnceEachGrows(r: seq<Policy>, seen: set<PolicyId>, source: PolicySet, p: Policy)
    requires KeyedById(source) && OnceEach(r, seen, source)
    requires p.id in source && source[p.id] == p && p.id !in seen
    ensures OnceEach(r + [p], seen + {p.id}, source)
  {
    var all := r + [p];
    forall i | 0 <= i < |r| ensures r[i].id != p.id { assert r[i] in r; }
    forall q ensures q in all <==> q.id in seen + {p.id} && source[q.id] == q {
      assert q in all <==> q in r || q == p;
    }
  }
}
