/**
 The part of Cedar the engine relies on: names, policies, the entity graph, and a reference authorizer
 (scopes decided over the graph, forbid overriding permit, policies whose condition errors ignored).
 Conditions are opaque: whatever Cedar makes of them is an arbitrary function.
 */
module Cedar {
  import opened Names
  import opened Prelude

  /** A qualified name, as its non-empty list of segments. */
  type Name = seq<string>

  datatype Uid = Uid(ty: Name, id: string)

  type PolicyId = string

  datatype Effect = Permit | Forbid

  /** Principal and resource constraints have the same five shapes. */
  datatype EntityConstraint =
    | Any
    | Eq(uid: Uid)
    | In(uid: Uid)
    | Is(ty: Name)
    | IsIn(ty: Name, uid: Uid)

  datatype ActionConstraint = AnyAction | ActionEq(uid: Uid) | ActionIn(uids: seq<Uid>)

  datatype Expr =
    | EntityLiteral(uid: Uid)
    | Opaque                      // variables, slots and the literals that are not entities
    | UnaryOp(arg: Expr)
    | GetAttr(arg: Expr, attr: string)
    | HasAttr(arg: Expr, attr: string)
    | Like(arg: Expr, pattern: string)
    | BinaryOp(left: Expr, right: Expr)
    | IsType(arg: Expr, ty: Name, inArg: Option<Expr>)
    | IfThenElse(cond: Expr, thn: Expr, els: Expr)
    | SetOf(items: seq<Expr>)
    | RecordOf(fields: seq<Field>)

  datatype Field = Field(key: string, value: Expr)

  datatype Clause = When(body: Expr) | Unless(body: Expr)

  /** A static policy. `json` is what serializing it gives, or None where Cedar cannot serialize it. */
  datatype Policy = Policy(
    id: PolicyId,
    effect: Effect,
    annotations: map<string, string>,
    principal: EntityConstraint,
    action: ActionConstraint,
    resource: EntityConstraint,
    clauses: seq<Clause>,
    literal: string,
    json: Option<string>,
    inspectable: bool)
  {
    function Annotation(key: string): Option<string> {
      if key in annotations then Some(annotations[key]) else None
    }
  }

  /** A policy set is keyed by policy id; it has no order of its own. */
  type PolicySet = map<PolicyId, Policy>

  ghost predicate KeyedById(policies: PolicySet) {
    forall id | id in policies :: policies[id].id == id
  }

  datatype AttrValue =
    | StringValue(text: string)
    | BoolValue(b: bool)
    | LongValue(n: int)
    | IpValue(ip: string)
    | SetValue(items: seq<AttrValue>)

  type Attributes = map<string, AttrValue>

  /** A name without its last segment. */
  function Namespace(name: Name): Name {
    if name == [] then [] else name[..|name| - 1]
  }

  function Basename(name: Name): string {
    if name == [] then "" else name[|name| - 1]
  }

  // ---------- Requests ----------

  datatype Principal = User(uid: Uid, groups: seq<Uid>) | Group(uid: Uid) {
    function Groups(): seq<Uid> {
      if User? then groups else []
    }
  }

  datatype Resource = Resource(uid: Uid, attrs: Attributes)

  /** An action as requested: its namespace components, kept as the caller gave them, and the uid made from them. */
  datatype ActionId = ActionId(namespace: seq<string>, uid: Uid)

  datatype Request = Request(principal: Principal, action: ActionId, resource: Resource, context: Attributes)

  /** What the identity constructors accept: fixed basenames, non-empty ids, groups beside their user. */
  predicate WellFormedPrincipal(p: Principal) {
    match p
    case User(uid, groups) =>
      && Basename(uid.ty) == "User" && uid.id != ""
      && forall g | g in groups :: g.ty == Namespace(uid.ty) + ["Group"] && g.id != ""
    case Group(uid) => Basename(uid.ty) == "Group" && uid.id != ""
  }

  const ACTION := "Action"

  /** Only the joined text is checked, so one component may hold several segments. */
  predicate WellFormedAction(a: ActionId) {
    && a.uid.id != "" && AllSegments(a.uid.ty)
    && a.uid.ty == SplitPath(JoinPath(a.namespace + [ACTION]))
  }

  /** The segments of an action's type are those of its components, then `Action`. */
  lemma ActionSegments(a: ActionId)
    requires WellFormedAction(a)
    ensures a.uid.ty == Flatten(a.namespace) + [ACTION]
    ensures Namespace(a.uid.ty) == Flatten(a.namespace) && Basename(a.uid.ty) == ACTION
  {
    QualifiedSegments(a.namespace, ACTION);
  }

  predicate WellFormedRequest(r: Request) {
    && WellFormedPrincipal(r.principal)
    && WellFormedAction(r.action)
    && r.resource.uid.ty != [] && r.resource.uid.id != ""
  }

  // ---------- Entity graph ----------

  datatype Entities = Entities(parents: map<Uid, set<Uid>>, attrs: map<Uid, Attributes>)

  ghost predicate IsPath(graph: Entities, path: seq<Uid>, from: Uid, to: Uid) {
    && path != [] && path[0] == from && path[|path| - 1] == to
    && forall k | 0 <= k < |path| - 1 :: path[k] in graph.parents && path[k + 1] in graph.parents[path[k]]
  }

  /** Cedar's `in`: reachable over parent edges, in zero or more steps. */
  ghost predicate InHierarchy(graph: Entities, from: Uid, to: Uid) {
    exists path :: IsPath(graph, path, from, to)
  }

  // ---------- Reference authorizer ----------

  datatype CedarRequest = CedarRequest(principal: Uid, action: Uid, resource: Uid, context: Attributes)

  datatype Truth = True | False | Error

  /** What Cedar makes of a policy's `when` and `unless` clauses. */
  type Conditions = (Policy, CedarRequest, Entities) -> Truth

  ghost predicate EntityScopeHolds(c: EntityConstraint, uid: Uid, graph: Entities) {
    match c
    case Any => true
    case Eq(u) => uid == u
    case In(u) => InHierarchy(graph, uid, u)
    case Is(ty) => uid.ty == ty
    case IsIn(ty, u) => uid.ty == ty && InHierarchy(graph, uid, u)
  }

  ghost predicate ActionScopeHolds(c: ActionConstraint, uid: Uid, graph: Entities) {
    match c
    case AnyAction => true
    case ActionEq(u) => uid == u
    case ActionIn(us) => exists u | u in us :: InHierarchy(graph, uid, u)
  }

  ghost predicate ScopeHolds(p: Policy, r: CedarRequest, graph: Entities) {
    && EntityScopeHolds(p.principal, r.principal, graph)
    && ActionScopeHolds(p.action, r.action, graph)
    && EntityScopeHolds(p.resource, r.resource, graph)
  }

  ghost predicate Satisfied(p: Policy, r: CedarRequest, graph: Entities, cond: Conditions) {
    ScopeHolds(p, r, graph) && (p.clauses != [] ==> cond(p, r, graph) == True)
  }

  ghost function SatisfiedIds(policies: PolicySet, r: CedarRequest, graph: Entities, cond: Conditions): set<PolicyId> {
    set id | id in policies && Satisfied(policies[id], r, graph, cond)
  }

  ghost function WithEffect(policies: PolicySet, ids: set<PolicyId>, effect: Effect): set<PolicyId> {
    set id | id in ids && id in policies && policies[id].effect == effect
  }

  /** The decision and its determining policies. */
  datatype Response = Response(allow: bool, reasons: set<PolicyId>)

  ghost function IsAuthorized(policies: PolicySet, r: CedarRequest, graph: Entities, cond: Conditions): Response {
    var satisfied := SatisfiedIds(policies, r, graph, cond);
    var forbids := WithEffect(policies, satisfied, Forbid);
    var permits := WithEffect(policies, satisfied, Permit);
    if forbids != {} then Response(false, forbids)
    else if permits != {} then Response(true, permits)
    else Response(false, {})
  }
}
