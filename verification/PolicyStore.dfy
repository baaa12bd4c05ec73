/**
 Store layouts, the references a policy makes, and request routing (`src/policy_store.rs`).
 `Layout` is the plain value a `PolicyStoreLayout` object stands for; everything proved about assignment and
 routing is proved on it, and the object's methods are tied to it.
 */
module PolicyStore {
  import opened Prelude
  import opened Cedar
  import opened Names
  import opened NamespaceRouter

  datatype StoreConfig = StoreConfig(id: string, namespace: Name)

  datatype Layout = Layout(stores: seq<StoreConfig>, globalPolicyIds: set<string>)

  datatype LayoutError =
    | NoStores
    | DuplicateId(id: string)
    | OverlappingNamespaces(existing: nat, added: nat)
    | BlankGlobalId

  /** What PolicyStoreConfig::new lets through: `*` is reserved for global policies. */
  predicate ValidStoreConfig(s: StoreConfig) {
    !IsBlank(s.id) && s.id != "*" && s.namespace != [] && AllSegments(s.namespace)
  }

  ghost predicate DistinctIds(stores: seq<StoreConfig>) {
    forall i, j | 0 <= i < j < |stores| :: stores[i].id != stores[j].id
  }

  ghost predicate DisjointNamespaces(stores: seq<StoreConfig>) {
    forall i, j | 0 <= i < j < |stores| :: !Overlap(stores[i].namespace, stores[j].namespace)
  }

  ghost predicate ValidLayout(l: Layout) {
    && l.stores != []
    && (forall s | s in l.stores :: ValidStoreConfig(s))
    && DistinctIds(l.stores) && DisjointNamespaces(l.stores)
    && forall g | g in l.globalPolicyIds :: !IsBlank(g)
  }

  /** Store `i` owns the subtree of names below its namespace. */
  predicate Owns(l: Layout, i: nat, name: Name) {
    i < |l.stores| && l.stores[i].namespace <= name
  }

  /** The linear scan that the trie replaces. */
  function FirstOwner(stores: seq<StoreConfig>, name: Name): Option<nat> {
    if stores == [] then None
    else if stores[0].namespace <= name then Some(0)
    else match FirstOwner(stores[1..], name)
      case None => None
      case Some(i) => Some(i + 1)
  }

  function Owner(l: Layout, name: Name): Option<nat> {
    FirstOwner(l.stores, name)
  }

  lemma {:induction false} FirstOwnerScans(stores: seq<StoreConfig>, name: Name)
    ensures FirstOwner(stores, name) == None <==> forall i | 0 <= i < |stores| :: !(stores[i].namespace <= name)
    ensures var r := FirstOwner(stores, name);
      r.Some? ==> r.value < |stores| && stores[r.value].namespace <= name
  {
    if stores == [] {
    } else {
      FirstOwnerScans(stores[1..], name);
      assert forall i | 1 <= i < |stores| :: stores[i] == stores[1..][i - 1];
    }
  }

  /** The owner of a name is unique: the scan order does not matter. */
  lemma OwnerIsUnique(l: Layout, name: Name)
    requires ValidLayout(l)
    ensures forall i: nat :: Owner(l, name) == Some(i) <==> Owns(l, i, name)
    ensures Owner(l, name) == None <==> forall i: nat :: !Owns(l, i, name)
  {
    FirstOwnerScans(l.stores, name);
    forall i: nat | Owns(l, i, name) ensures Owner(l, name) == Some(i) {
      var k := Owner(l, name).value;
      PrefixesOverlap(l.stores[i].namespace, l.stores[k].namespace, name);
    }
  }

  lemma PrefixesOverlap(a: Name, b: Name, name: Name)
    requires a <= name && b <= name
    ensures Overlap(a, b)
  {
    if |a| <= |b| {
      assert a == b[..|a|];
    } else {
      assert b == a[..|b|];
    }
  }

  /** Whoever owns a name owns every name below it. */
  lemma OwnerBelow(l: Layout, name: Name, longer: Name)
    requires ValidLayout(l) && name <= longer && Owner(l, name).Some?
    ensures Owner(l, longer) == Owner(l, name)
  {
    OwnerIsUnique(l, name);
    OwnerIsUnique(l, longer);
    assert Owns(l, Owner(l, name).value, longer);
  }

  // ---------- References made by a policy ----------

  function EntityReferences(c: EntityConstraint): seq<Name> {
    match c
    case Any => []
    case Eq(uid) => [uid.ty]
    case In(uid) => [uid.ty]
    case Is(ty) => [ty]
    case IsIn(ty, uid) => [ty, uid.ty]
  }

  function UidTypes(uids: seq<Uid>): seq<Name> {
    seq(|uids|, i requires 0 <= i < |uids| => uids[i].ty)
  }

  function ActionReferences(c: ActionConstraint): seq<Name> {
    match c
    case AnyAction => []
    case ActionEq(uid) => [uid.ty]
    case ActionIn(uids) => UidTypes(uids)
  }

  function ExprReferences(e: Expr): seq<Name> {
    match e
    case EntityLiteral(uid) => [uid.ty]
    case Opaque => []
    case UnaryOp(a) => ExprReferences(a)
    case GetAttr(a, _) => ExprReferences(a)
    case HasAttr(a, _) => ExprReferences(a)
    case Like(a, _) => ExprReferences(a)
    case BinaryOp(l, r) => ExprReferences(l) + ExprReferences(r)
    case IsType(a, ty, inArg) =>
      [ty] + ExprReferences(a) + (if inArg.Some? then ExprReferences(inArg.value) else [])
    case IfThenElse(c, t, f) => ExprReferences(c) + ExprReferences(t) + ExprReferences(f)
    case SetOf(items) => AllReferences(items)
    case RecordOf(fields) => FieldReferences(fields)
  }

  function AllReferences(es: seq<Expr>): seq<Name> {
    if es == [] then [] else ExprReferences(es[0]) + AllReferences(es[1..])
  }

  function FieldReferences(fs: seq<Field>): seq<Name> {
    if fs == [] then [] else ExprReferences(fs[0].value) + FieldReferences(fs[1..])
  }

  function ClauseReferences(clauses: seq<Clause>): seq<Name> {
    if clauses == [] then [] else ExprReferences(clauses[0].body) + ClauseReferences(clauses[1..])
  }

  function PolicyReferences(p: Policy): seq<Name> {
    EntityReferences(p.principal) + ActionReferences(p.action) + EntityReferences(p.resource)
      + ClauseReferences(p.clauses)
  }

  // An independent account of "mentions, at any depth": walk to a position, look at the node there.

  function Children(e: Expr): seq<Expr> {
    match e
    case EntityLiteral(_) => []
    case Opaque => []
    case UnaryOp(a) => [a]
    case GetAttr(a, _) => [a]
    case HasAttr(a, _) => [a]
    case Like(a, _) => [a]
    case BinaryOp(l, r) => [l, r]
    case IsType(a, _, inArg) => if inArg.Some? then [a, inArg.value] else [a]
    case IfThenElse(c, t, f) => [c, t, f]
    case SetOf(items) => items
    case RecordOf(fields) => seq(|fields|, i requires 0 <= i < |fields| => fields[i].value)
  }

  function NodeAt(e: Expr, position: seq<nat>): Option<Expr>
    decreases |position|
  {
    if position == [] then Some(e)
    else if position[0] < |Children(e)| then NodeAt(Children(e)[position[0]], position[1..])
    else None
  }

  /** The type a node names itself: an entity literal's, or the one tested by `is`. */
  function TypeNamedBy(e: Expr): Option<Name> {
    match e
    case EntityLiteral(uid) => Some(uid.ty)
    case IsType(_, ty, _) => Some(ty)
    case _ => None
  }

  ghost predicate NamesAt(e: Expr, position: seq<nat>, n: Name) {
    var node := NodeAt(e, position);
    node.Some? && TypeNamedBy(node.value) == Some(n)
  }

  ghost predicate Mentions(e: Expr, n: Name) {
    exists position :: NamesAt(e, position, n)
  }

  lemma MentionsUnfolds(e: Expr, n: Name)
    ensures Mentions(e, n) <==>
      TypeNamedBy(e) == Some(n) || exists i | 0 <= i < |Children(e)| :: Mentions(Children(e)[i], n)
  {
    if Mentions(e, n) {
      var position :| NamesAt(e, position, n);
      if position != [] {
        assert NamesAt(Children(e)[position[0]], position[1..], n);
      }
    }
    if TypeNamedBy(e) == Some(n) {
      assert NamesAt(e, [], n);
    }
    if i :| 0 <= i < |Children(e)| && Mentions(Children(e)[i], n) {
      var rest :| NamesAt(Children(e)[i], rest, n);
      var position := [i] + rest;
      assert position[0] == i && position[1..] == rest;
      assert NamesAt(e, position, n);
    }
  }

  /** The walk gathers exactly the types mentioned at some depth. */
  lemma {:induction false} ReferencesAreMentions(e: Expr, n: Name)
    ensures n in ExprReferences(e) <==> Mentions(e, n)
    decreases e, 1
  {
    MentionsUnfolds(e, n);
    match e
    case EntityLiteral(_) =>
    case Opaque =>
    case UnaryOp(a) => ReferencesAreMentions(a, n); assert Children(e)[0] == a;
    case GetAttr(a, _) => ReferencesAreMentions(a, n); assert Children(e)[0] == a;
    case HasAttr(a, _) => ReferencesAreMentions(a, n); assert Children(e)[0] == a;
    case Like(a, _) => ReferencesAreMentions(a, n); assert Children(e)[0] == a;
    case BinaryOp(l, r) =>
      ReferencesAreMentions(l, n); ReferencesAreMentions(r, n);
      assert Children(e)[0] == l && Children(e)[1] == r;
    case IsType(a, _, inArg) =>
      ReferencesAreMentions(a, n);
      assert Children(e)[0] == a;
      if inArg.Some? { ReferencesAreMentions(inArg.value, n); assert Children(e)[1] == inArg.value; }
    case IfThenElse(c, t, f) =>
      ReferencesAreMentions(c, n); ReferencesAreMentions(t, n); ReferencesAreMentions(f, n);
      assert Children(e)[0] == c && Children(e)[1] == t && Children(e)[2] == f;
    case SetOf(items) => AllReferencesAreMentions(items, n);
    case RecordOf(fields) =>
      FieldReferencesAreMentions(fields, n);
      assert forall i | 0 <= i < |fields| :: Children(e)[i] == fields[i].value;
  }

  lemma {:induction false} AllReferencesAreMentions(es: seq<Expr>, n: Name)
    ensures n in AllReferences(es) <==> exists i | 0 <= i < |es| :: Mentions(es[i], n)
    decreases es, 0
  {
    if es == [] {
    } else {
      ReferencesAreMentions(es[0], n);
      AllReferencesAreMentions(es[1..], n);
      assert forall i | 1 <= i < |es| :: es[i] == es[1..][i - 1];
    }
  }

  lemma {:induction false} FieldReferencesAreMentions(fs: seq<Field>, n: Name)
    ensures n in FieldReferences(fs) <==> exists i | 0 <= i < |fs| :: Mentions(fs[i].value, n)
    decreases fs, 0
  {
    if fs == [] {
    } else {
      ReferencesAreMentions(fs[0].value, n);
      FieldReferencesAreMentions(fs[1..], n);
      assert forall i | 1 <= i < |fs| :: fs[i] == fs[1..][i - 1];
    }
  }

  /** A policy mentions a type in its scope or anywhere inside one of its clauses. */
  ghost predicate PolicyMentions(p: Policy, n: Name) {
    || ConstraintMentions(p.principal, n)
    || (p.action.ActionEq? && p.action.uid.ty == n)
    || (p.action.ActionIn? && exists u :: u in p.action.uids && u.ty == n)
    || ConstraintMentions(p.resource, n)
    || exists i | 0 <= i < |p.clauses| :: Mentions(p.clauses[i].body, n)
  }

  ghost predicate ConstraintMentions(c: EntityConstraint, n: Name) {
    || ((c.Eq? || c.In? || c.IsIn?) && c.uid.ty == n)
    || ((c.Is? || c.IsIn?) && c.ty == n)
  }

  lemma {:induction false} ClauseReferencesAreMentions(clauses: seq<Clause>, n: Name)
    ensures n in ClauseReferences(clauses) <==> exists i | 0 <= i < |clauses| :: Mentions(clauses[i].body, n)
  {
    if clauses == [] {
    } else {
      ReferencesAreMentions(clauses[0].body, n);
      ClauseReferencesAreMentions(clauses[1..], n);
      assert forall i | 1 <= i < |clauses| :: clauses[i] == clauses[1..][i - 1];
    }
  }

  lemma PolicyReferencesAreMentions(p: Policy, n: Name)
    ensures n in PolicyReferences(p) <==> PolicyMentions(p, n)
  {
    ClauseReferencesAreMentions(p.clauses, n);
    assert n in EntityReferences(p.principal) <==> ConstraintMentions(p.principal, n);
    assert n in EntityReferences(p.resource) <==> ConstraintMentions(p.resource, n);
    if p.action.ActionIn? {
      UidTypesOf(p.action.uids, n);
    }
  }

  lemma UidTypesOf(uids: seq<Uid>, n: Name)
    ensures n in UidTypes(uids) <==> exists u :: u in uids && u.ty == n
  {
    assert forall k | 0 <= k < |uids| :: UidTypes(uids)[k] == uids[k].ty;
    if u :| u in uids && u.ty == n {
      var k :| 0 <= k < |uids| && uids[k] == u;
      assert UidTypes(uids)[k] == n;
    }
  }

  ghost predicate OwnsOneOf(l: Layout, i: nat, names: seq<Name>) {
    exists n :: n in names && Owns(l, i, n)
  }

  /** The stores owning a name of a list. */
  ghost function OwnersOf(l: Layout, names: seq<Name>): set<nat> {
    set i: nat | i < |l.stores| && OwnsOneOf(l, i, names)
  }

  lemma OwnersOfAppend(l: Layout, names: seq<Name>, n: Name)
    requires ValidLayout(l)
    ensures OwnersOf(l, names + [n]) ==
      OwnersOf(l, names) + match Owner(l, n) case Some(i) => {i} case None => {}
  {
    OwnerIsUnique(l, n);
    var added := match Owner(l, n) case Some(i) => {i} case None => {};
    forall i: nat ensures i in OwnersOf(l, names + [n]) <==> i in OwnersOf(l, names) + added {
      assert n in names + [n];
      if m :| m in names && Owns(l, i, m) { assert m in names + [n]; }
    }
  }

  /** The stores a policy's references point into. */
  ghost function ReferencedStores(l: Layout, p: Policy): set<nat> {
    OwnersOf(l, PolicyReferences(p))
  }

  // ---------- Explicit assignment ----------

  datatype ExplicitStore = ExplicitGlobal | ExplicitLocal(store: nat)

  const STORE_ANNOTATION := "treetop_store"

  function StoreIndexById(stores: seq<StoreConfig>, id: string): (r: Option<nat>)
    ensures r.Some? ==> r.value < |stores| && stores[r.value].id == id
    ensures r == None <==> forall i | 0 <= i < |stores| :: stores[i].id != id
  {
    if stores == [] then None
    else if stores[0].id == id then Some(0)
    else
      assert forall i | 1 <= i < |stores| :: stores[i] == stores[1..][i - 1];
      match StoreIndexById(stores[1..], id)
      case None => None
      case Some(i) => Some(i + 1)
  }

  /** Ok(None) without annotation, Err where it names no declared store. */
  function ExplicitPolicyStore(l: Layout, p: Policy): Result<Option<ExplicitStore>, string> {
    match p.Annotation(STORE_ANNOTATION)
    case None => Ok(None)
    case Some(value) =>
      if value == "*" then Ok(Some(ExplicitGlobal))
      else match StoreIndexById(l.stores, value)
        case None => Err(value)
        case Some(i) => Ok(Some(ExplicitLocal(i)))
  }

  // ---------- Request routing ----------

  datatype RoutingError = CrossStore(actionStore: nat, resourceStore: nat) | NoStore

  /** Looks up the action's components as they are, not the segments of its type. */
  function ResolveRequest(l: Layout, action: ActionId, resourceType: Name): Result<nat, RoutingError> {
    match (Owner(l, action.namespace), Owner(l, resourceType))
    case (Some(a), Some(r)) => if a != r then Err(CrossStore(a, r)) else Ok(a)
    case (Some(a), None) => Ok(a)
    case (None, Some(r)) => Ok(r)
    case (None, None) => Err(NoStore)
  }

  ghost predicate PointsAt(l: Layout, action: ActionId, resourceType: Name, i: nat) {
    Owns(l, i, action.namespace) || Owns(l, i, resourceType)
  }

  /** A request routes to a store exactly when that store, and no other, owns the components or the resource type. */
  lemma RoutesExactly(l: Layout, action: ActionId, resourceType: Name)
    requires ValidLayout(l)
    ensures forall i: nat :: ResolveRequest(l, action, resourceType) == Ok(i) <==>
      PointsAt(l, action, resourceType, i) && forall j: nat :: PointsAt(l, action, resourceType, j) ==> j == i
    ensures ResolveRequest(l, action, resourceType) == Err(NoStore) <==>
      forall j: nat :: !PointsAt(l, action, resourceType, j)
    ensures forall j: nat, k: nat :: ResolveRequest(l, action, resourceType) == Err(CrossStore(j, k)) <==>
      j != k && Owns(l, j, action.namespace) && Owns(l, k, resourceType)
    ensures ResolveRequest(l, action, resourceType).Ok? ==>
      ResolveRequest(l, action, resourceType).value < |l.stores|
  {
    OwnerIsUnique(l, action.namespace);
    OwnerIsUnique(l, resourceType);
    var a, r := Owner(l, action.namespace), Owner(l, resourceType);
    forall i: nat
      ensures ResolveRequest(l, action, resourceType) == Ok(i) <==>
        PointsAt(l, action, resourceType, i) && forall j: nat :: PointsAt(l, action, resourceType, j) ==> j == i
    {
      if a.Some? { assert PointsAt(l, action, resourceType, a.value); }
      if r.Some? { assert PointsAt(l, action, resourceType, r.value); }
    }
    if a.Some? { assert PointsAt(l, action, resourceType, a.value); }
    if r.Some? { assert PointsAt(l, action, resourceType, r.value); }
  }

  // ---------- Components against segments ----------

  /**
   No component is joined among those that the owning store's namespace is compared with. A caller can check it by
   looking for `::` in the components; where there is none, it holds in every layout.
   */
  predicate NamedAsRouted(l: Layout, a: ActionId) {
    match Owner(l, Namespace(a.uid.ty))
    case None => true
    case Some(i) => i < |l.stores| && SingleUpTo(a.namespace, |l.stores[i].namespace|)
  }

  /** The components lead to the store that owns the action's type, or, exactly where one of them is joined, to none. */
  lemma ComponentsLeadToOwnerOrNowhere(l: Layout, a: ActionId)
    requires ValidLayout(l) && WellFormedAction(a)
    ensures Owner(l, a.namespace) == if NamedAsRouted(l, a) then Owner(l, Namespace(a.uid.ty)) else None
    ensures NamedAsRouted(l, a) <==> Owner(l, a.namespace) == Owner(l, Namespace(a.uid.ty))
  {
    var name := Namespace(a.uid.ty);
    ActionSegments(a);
    OwnerIsUnique(l, a.namespace);
    OwnerIsUnique(l, name);
    forall i: nat
      ensures Owns(l, i, a.namespace) <==> Owns(l, i, name) && SingleUpTo(a.namespace, |l.stores[i].namespace|)
    {
      if i < |l.stores| {
        assert ValidStoreConfig(l.stores[i]) by { assert l.stores[i] in l.stores; }
        PrefixOfComponents(l.stores[i].namespace, a.namespace);
      }
    }
  }

  lemma PlainComponentsAreRoutedAsNamed(l: Layout, a: ActionId)
    requires ValidLayout(l) && WellFormedAction(a) && SingleUpTo(a.namespace, |a.namespace|)
    ensures a.namespace == Namespace(a.uid.ty) && NamedAsRouted(l, a)
  {
    ActionSegments(a);
    PlainComponentsFlatten(a.namespace);
    ComponentsLeadToOwnerOrNowhere(l, a);
  }
}
