/**
 Distributing one policy source over the stores of a layout (`partition_policy_set` in `src/engine.rs`).
 The assignment rules are stated once, as `IsGlobal` and `IsLocal`; the loop is proved against them.
 */
module Partition {
  import opened Prelude
  import opened Cedar
  import opened PolicyStore
  import opened StoreLayout

  const ID_ANNOTATION := "id"

  predicate IsRegistered(l: Layout, p: Policy) {
    p.Annotation(ID_ANNOTATION).Some? && p.Annotation(ID_ANNOTATION).value in l.globalPolicyIds
  }

  /** In every store: marked `*`, or registered in the layout and not annotated otherwise. */
  predicate IsGlobal(l: Layout, p: Policy) {
    match p.Annotation(STORE_ANNOTATION)
    case None => IsRegistered(l, p)
    case Some(value) => value == "*"
  }

  /** In store `i` alone: it is the only store referred to, or the annotation names it and no other is referred to. */
  ghost predicate IsLocal(l: Layout, p: Policy, i: nat) {
    && i < |l.stores| && p.inspectable && !IsRegistered(l, p)
    && match p.Annotation(STORE_ANNOTATION)
       case None => ReferencedStores(l, p) == {i}
       case Some(value) => l.stores[i].id == value && ReferencedStores(l, p) <= {i}
  }

  ghost predicate Assignable(l: Layout, p: Policy) {
    IsGlobal(l, p) || exists i: nat :: IsLocal(l, p, i)
  }

  ghost predicate InstalledIn(l: Layout, p: Policy, i: nat) {
    i < |l.stores| && (IsGlobal(l, p) || IsLocal(l, p, i))
  }

  /** Global ids of the layout that annotate no policy of the source. */
  ghost function MissingGlobals(l: Layout, source: PolicySet): set<string> {
    set g | g in l.globalPolicyIds && forall id | id in source :: source[id].Annotation(ID_ANNOTATION) != Some(g)
  }

  ghost predicate Partitionable(l: Layout, source: PolicySet) {
    && (forall id | id in source :: Assignable(l, source[id]))
    && MissingGlobals(l, source) == {}
  }

  /** Store `i` holds exactly the source policies installed in it, unchanged. */
  ghost predicate IsPartition(l: Layout, source: PolicySet, stores: seq<PolicySet>) {
    && |stores| == |l.stores|
    && forall i | 0 <= i < |stores| ::
         stores[i] == map id | id in source && InstalledIn(l, source[id], i) :: source[id]
  }

  lemma LocalStoreIsUnique(l: Layout, p: Policy, i: nat, j: nat)
    requires ValidLayout(l) && IsLocal(l, p, i)
    ensures !IsGlobal(l, p)
    ensures IsLocal(l, p, j) ==> i == j
  {
    assert l.stores[i] in l.stores;
    if IsLocal(l, p, j) && p.Annotation(STORE_ANNOTATION) == None {
      assert i in ReferencedStores(l, p) && j in ReferencedStores(l, p);
    }
  }

  /** On success every policy is kept: a global one everywhere, any other in exactly one store. */
  lemma EveryPolicyIsPlaced(l: Layout, source: PolicySet, stores: seq<PolicySet>, id: PolicyId)
    requires ValidLayout(l) && Partitionable(l, source) && IsPartition(l, source, stores) && id in source
    ensures IsGlobal(l, source[id]) ==> forall i | 0 <= i < |stores| :: id in stores[i] && stores[i][id] == source[id]
    ensures !IsGlobal(l, source[id]) ==> exists i | 0 <= i < |stores| ::
        && id in stores[i] && stores[i][id] == source[id]
        && forall j | 0 <= j < |stores| && j != i :: id !in stores[j]
  {
    var p := source[id];
    assert Assignable(l, p);
    if !IsGlobal(l, p) {
      var i: nat :| IsLocal(l, p, i);
      forall j | 0 <= j < |stores| && j != i ensures id !in stores[j] {
        LocalStoreIsUnique(l, p, i, j);
      }
      assert id in stores[i];
    }
  }

  /** No local policy mentions, anywhere in its scope or at any depth of its clauses, a type owned by another store. */
  lemma LocalPoliciesStayInside(l: Layout, p: Policy, i: nat, n: Name, j: nat)
    requires ValidLayout(l) && IsLocal(l, p, i)
    requires PolicyMentions(p, n) && Owns(l, j, n)
    ensures j == i
  {
    PolicyReferencesAreMentions(p, n);
    assert OwnsOneOf(l, j, PolicyReferences(p));
    assert j in ReferencedStores(l, p);
  }

  // ---------- The loop ----------

  datatype PartitionError =
    | UnknownStore(policy: string, annotation: string)
    | RegisteredButLocal(policy: string, store: nat)
    | BadCandidates(policy: string, reason: CandidateError)
    | ConflictingScope(policy: string, store: nat, referencedStore: nat)
    | Unassigned(policy: string)
    | GlobalIdsNotFound(missing: set<string>)

  function DisplayPolicyId(p: Policy): string {
    match p.Annotation(ID_ANNOTATION)
    case Some(id) => if id != "" then id else p.id
    case None => p.id
  }

  /** A policy is shown by its `@id`, or by its own id where that is missing or empty. */
  ghost predicate IsShownAs(name: string, p: Policy) {
    var annotated := "id" in p.annotations && p.annotations["id"] != "";
    name == if annotated then p.annotations["id"] else p.id
  }

  /** What each refusal of a policy says about it. */
  ghost predicate Explains(l: Layout, p: Policy, e: PartitionError) {
    match e
    case UnknownStore(name, value) =>
      && IsShownAs(name, p) && p.Annotation(STORE_ANNOTATION) == Some(value)
      && value != "*" && forall s | s in l.stores :: s.id != value
    case RegisteredButLocal(name, i) =>
      && IsShownAs(name, p) && IsRegistered(l, p)
      && i < |l.stores| && p.Annotation(STORE_ANNOTATION) == Some(l.stores[i].id)
    case BadCandidates(name, NotInspectable) =>
      IsShownAs(name, p) && !IsGlobal(l, p) && !p.inspectable
    case BadCandidates(name, SpansStores(stores)) =>
      IsShownAs(name, p) && !IsGlobal(l, p) && stores == ReferencedStores(l, p) && |stores| > 1
    case ConflictingScope(name, i, j) =>
      && IsShownAs(name, p) && i < |l.stores| && p.Annotation(STORE_ANNOTATION) == Some(l.stores[i].id)
      && ReferencedStores(l, p) == {j} && i != j
    case Unassigned(name) =>
      && IsShownAs(name, p) && p.Annotation(STORE_ANNOTATION) == None && !IsRegistered(l, p)
      && ReferencedStores(l, p) == {}
    case GlobalIdsNotFound(_) => false
  }

  /** A refusal that is explained is justified. */
  lemma ExplainedRefusalsAreJustified(l: Layout, p: Policy, e: PartitionError)
    requires ValidLayout(l) && Explains(l, p, e)
    ensures !Assignable(l, p)
  {
    StoreIdsAreUnambiguous(l, p);
    if e.BadCandidates? && e.reason.SpansStores? {
      MoreThanOneStore(l, p);
    }
  }

  method GlobalTargets(layout: PolicyStoreLayout, p: Policy) returns (all: seq<nat>)
    requires layout.Valid() && IsGlobal(layout.Value(), p)
    ensures forall i: nat :: i in all <==> InstalledIn(layout.Value(), p, i)
    ensures forall j, k | 0 <= j < k < |all| :: all[j] != all[k]
  {
    all := seq(|layout.stores|, i requires 0 <= i < |layout.stores| => i);
    forall i: nat ensures i in all <==> InstalledIn(layout.Value(), p, i) {
      if i < |layout.stores| { assert all[i] == i; }
    }
  }

  /** The stores one policy goes to. The arms for an ambiguous or inconsistent assignment are dead. */
  method TargetIndexes(layout: PolicyStoreLayout, p: Policy) returns (r: Result<seq<nat>, PartitionError>)
    requires layout.Valid()
    ensures r.Ok? <==> Assignable(layout.Value(), p)
    ensures r.Ok? ==> forall i: nat :: i in r.value <==> InstalledIn(layout.Value(), p, i)
    ensures r.Ok? ==> forall j, k | 0 <= j < k < |r.value| :: r.value[j] != r.value[k]
    ensures r.Err? ==> Explains(layout.Value(), p, r.error)
  {
    ghost var l := layout.Value();
    var displayId := DisplayPolicyId(p);
    var registered := p.Annotation(ID_ANNOTATION).Some? && p.Annotation(ID_ANNOTATION).value in layout.globalPolicyIds;
    var explicit := ExplicitPolicyStore(Layout(layout.stores, layout.globalPolicyIds), p);
    StoreIdsAreUnambiguous(l, p);
    if explicit.Err? {
      return Err(UnknownStore(displayId, explicit.error));
    }
    if registered && explicit.value.Some? && explicit.value.value.ExplicitLocal? {
      return Err(RegisteredButLocal(displayId, explicit.value.value.store));
    }
    if registered || explicit.value == Some(ExplicitGlobal) {
      var all := GlobalTargets(layout, p);
      return Ok(all);
    }
    match explicit.value {
      case Some(ExplicitLocal(store)) => r := LocalTargets(layout, p, Some(store));
      case Some(ExplicitGlobal) => assert false;
      case None => r := LocalTargets(layout, p, None);
    }
  }

  /** The part for policies that are not global; `store` is the one the annotation names. */
  method LocalTargets(layout: PolicyStoreLayout, p: Policy, store: Option<nat>)
    returns (r: Result<seq<nat>, PartitionError>)
    requires layout.Valid() && !IsGlobal(layout.Value(), p) && !IsRegistered(layout.Value(), p)
    requires store.Some? ==>
      store.value < |layout.stores| && p.Annotation(STORE_ANNOTATION) == Some(layout.stores[store.value].id)
    requires store == None ==> p.Annotation(STORE_ANNOTATION) == None
    ensures r.Ok? <==> Assignable(layout.Value(), p)
    ensures r.Ok? ==> |r.value| == 1 && forall i: nat :: i in r.value <==> InstalledIn(layout.Value(), p, i)
    ensures r.Err? ==> Explains(layout.Value(), p, r.error)
  {
    ghost var l := layout.Value();
    var displayId := DisplayPolicyId(p);
    var candidates := layout.PolicyCandidates(p);
    if candidates.Err? {
      r := Err(BadCandidates(displayId, candidates.error));
      ExplainedRefusalsAreJustified(l, p, r.error);
      return;
    }
    ghost var referenced := ReferencedStores(l, p);
    if |referenced| == 1 {
      SingletonSet(referenced, candidates.value[0]);
    }
    match store {
      case Some(named) =>
        if candidates.value != [] && candidates.value[0] != named {
          r := Err(ConflictingScope(displayId, named, candidates.value[0]));
          ExplainedRefusalsAreJustified(l, p, r.error);
        } else {
          r := Ok([named]);
          LocalOnly(l, p, named);
        }
      case None =>
        if |candidates.value| == 1 {
          r := Ok([candidates.value[0]]);
          LocalOnly(l, p, candidates.value[0]);
        } else if candidates.value == [] {
          r := Err(Unassigned(displayId));
          ExplainedRefusalsAreJustified(l, p, r.error);
        } else {
          assert false;
        }
    }
  }

  lemma LocalOnly(l: Layout, p: Policy, i: nat)
    requires ValidLayout(l) && IsLocal(l, p, i)
    ensures Assignable(l, p)
    ensures forall j: nat :: InstalledIn(l, p, j) <==> j == i
  {
    forall j: nat ensures InstalledIn(l, p, j) <==> j == i {
      LocalStoreIsUnique(l, p, i, j);
    }
  }

  /** What the annotation resolves to is what the assignment rules ask of it. */
  lemma StoreIdsAreUnambiguous(l: Layout, p: Policy)
    requires ValidLayout(l)
    ensures forall i: nat :: ExplicitPolicyStore(l, p) == Ok(Some(ExplicitLocal(i))) <==>
      i < |l.stores| && p.Annotation(STORE_ANNOTATION) == Some(l.stores[i].id)
    ensures ExplicitPolicyStore(l, p) == Ok(Some(ExplicitGlobal)) <==> p.Annotation(STORE_ANNOTATION) == Some("*")
    ensures ExplicitPolicyStore(l, p) == Ok(None) <==> p.Annotation(STORE_ANNOTATION) == None
  {
    forall i | 0 <= i < |l.stores| ensures l.stores[i].id != "*" {
      assert l.stores[i] in l.stores;
    }
  }

  lemma MoreThanOneStore(l: Layout, p: Policy)
    requires |ReferencedStores(l, p)| > 1
    ensures forall i: nat :: !IsLocal(l, p, i)
  {
    forall i: nat ensures !IsLocal(l, p, i) {
      if ReferencedStores(l, p) <= {i} {
        assert ReferencedStores(l, p) == {} || ReferencedStores(l, p) == {i};
      }
    }
  }

  /** PolicySet::add, which refuses an id it already holds. */
  function AddPolicy(policies: PolicySet, p: Policy): Option<PolicySet> {
    if p.id in policies then None else Some(policies[p.id := p])
  }

  /** Puts one policy into each target store. Every `add` succeeds: the id is new to all of them. */
  method Distribute(stores: seq<PolicySet>, p: Policy, targets: seq<nat>) returns (out: seq<PolicySet>)
    requires forall t | t in targets :: t < |stores|
    requires forall j, k | 0 <= j < k < |targets| :: targets[j] != targets[k]
    requires forall s | s in stores :: p.id !in s
    ensures |out| == |stores|
    ensures forall i | 0 <= i < |stores| :: out[i] == if i in targets then stores[i][p.id := p] else stores[i]
  {
    out := stores;
    for k := 0 to |targets|
      invariant |out| == |stores|
      invariant forall i | 0 <= i < |stores| :: out[i] == if i in targets[..k] then stores[i][p.id := p] else stores[i]
    {
      var t := targets[k];
      assert t in targets && t !in targets[..k] && stores[t] in stores;
      var added := AddPolicy(out[t], p);
      if added == None {
        assert false;
      }
      out := out[t := added.value];
      assert targets[..k + 1] == targets[..k] + [t];
    }
    assert targets[..|targets|] == targets;
  }

  /** The part of a source that has been visited. */
  ghost function Visited(source: PolicySet, todo: set<PolicyId>): PolicySet {
    map id | id in source && id !in todo :: source[id]
  }

  /**
   Succeeds exactly on a partitionable source, and then with its partition. A load is refused for missing global
   ids exactly when every policy is assignable and some registered id annotates none; the ids reported are those.
   */
  method PartitionPolicySet(layout: PolicyStoreLayout, source: PolicySet)
    returns (r: Result<seq<PolicySet>, PartitionError>)
    requires layout.Valid() && KeyedById(source)
    ensures r.Ok? <==> Partitionable(layout.Value(), source)
    ensures r.Ok? ==> IsPartition(layout.Value(), source, r.value)
    ensures (r.Err? && r.error.GlobalIdsNotFound?) <==>
      && (forall id | id in source :: Assignable(layout.Value(), source[id]))
      && MissingGlobals(layout.Value(), source) != {}
    ensures r.Err? && r.error.GlobalIdsNotFound? ==> r.error.missing == MissingGlobals(layout.Value(), source)
    ensures r.Err? && !r.error.GlobalIdsNotFound? ==>
      exists id :: id in source && Explains(layout.Value(), source[id], r.error)
  {
    ghost var l := layout.Value();
    var stores: seq<PolicySet> := seq(|layout.stores|, i => map[]);
    var found: set<string> := {};
    var todo := source.Keys;
    while todo != {}
      invariant todo <= source.Keys
      invariant forall id | id in source && id !in todo :: Assignable(l, source[id])
      invariant IsPartition(l, Visited(source, todo), stores)
      invariant forall g | g in layout.globalPolicyIds ::
          g in found <==> exists id | id in source && id !in todo :: source[id].Annotation(ID_ANNOTATION) == Some(g)
    {
      var id :| id in todo;
      var p := source[id];
      if p.Annotation(ID_ANNOTATION).Some? && p.Annotation(ID_ANNOTATION).value in layout.globalPolicyIds {
        found := found + {DisplayPolicyId(p)};
      }
      var targets := TargetIndexes(layout, p);
      if targets.Err? {
        return Err(targets.error);
      }
      ghost var before, was := stores, todo;
      NotYetPlaced(l, source, todo, id, stores);
      stores := Distribute(stores, p, targets.value);
      todo := todo - {id};
      PartitionGrows(l, source, was, id, before, stores);
    }
    assert Visited(source, todo) == source;
    var missing := layout.globalPolicyIds - found;
    assert missing == MissingGlobals(l, source);
    if missing != {} {
      return Err(GlobalIdsNotFound(missing));
    }
    return Ok(stores);
  }

  lemma NotYetPlaced(l: Layout, source: PolicySet, todo: set<PolicyId>, id: PolicyId, stores: seq<PolicySet>)
    requires IsPartition(l, Visited(source, todo), stores) && id in todo
    ensures forall s | s in stores :: id !in s
  {
    forall s | s in stores ensures id !in s {
      var i :| 0 <= i < |stores| && stores[i] == s;
    }
  }

  lemma PartitionGrows(l: Layout, source: PolicySet, todo: set<PolicyId>, id: PolicyId,
                       before: seq<PolicySet>, after: seq<PolicySet>)
    requires KeyedById(source) && id in todo && todo <= source.Keys
    requires IsPartition(l, Visited(source, todo), before)
    requires |after| == |before|
    requires forall i | 0 <= i < |before| ::
        after[i] == if InstalledIn(l, source[id], i) then before[i][id := source[id]] else before[i]
    ensures IsPartition(l, Visited(source, todo - {id}), after)
  {
  }
}
