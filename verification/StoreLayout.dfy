/**
 The `PolicyStoreLayout` object of `src/policy_store.rs`: it owns the trie, and its methods are proved against
 the plain `Layout` it stands for.
 */
module StoreLayout {
  import opened Prelude
  import opened Cedar
  import opened NamespaceRouter
  import opened PolicyStore

  datatype CandidateError = NotInspectable | SpansStores(candidates: set<nat>)

  /** The trie holds the namespaces of the first `n` stores, each with its index. */
  ghost predicate Routes(router: Router, stores: seq<StoreConfig>, n: nat)
    requires n <= |stores|
    reads router, router.repr
  {
    && router.Valid()
    && (forall i {:trigger stores[i]} | 0 <= i < n ::
          stores[i].namespace in router.owned && router.owned[stores[i].namespace] == i)
    && (forall ns {:trigger ns in router.owned} | ns in router.owned ::
          router.owned[ns] < n && stores[router.owned[ns]].namespace == ns)
  }

  class PolicyStoreLayout {
    const stores: seq<StoreConfig>
    const globalPolicyIds: set<string>
    const router: Router

    ghost function Value(): Layout {
      Layout(stores, globalPolicyIds)
    }

    ghost predicate Valid()
      reads router, router.repr
    {
      ValidLayout(Value()) && Routes(router, stores, |stores|)
    }

    constructor FromParts(stores: seq<StoreConfig>, globalPolicyIds: set<string>, router: Router)
      ensures this.stores == stores && this.globalPolicyIds == globalPolicyIds && this.router == router
    {
      this.stores := stores;
      this.globalPolicyIds := globalPolicyIds;
      this.router := router;
    }

    static method AddStore(router: Router, stores: seq<StoreConfig>, k: nat) returns (clash: Option<nat>)
      requires k < |stores| && Routes(router, stores, k) && ValidStoreConfig(stores[k])
      modifies router, router.repr
      ensures fresh(router.repr - old(router.repr))
      ensures clash == None ==> Routes(router, stores, k + 1)
      ensures clash.Some? ==> clash.value < k && Overlap(stores[clash.value].namespace, stores[k].namespace)
    {
      ghost var before := router.owned;
      assert stores[k].namespace in before ==> Overlap(stores[k].namespace, stores[k].namespace);
      clash := router.Insert(stores[k].namespace, k);
      if clash == None {
        OwnedGrows(before, router.owned, stores, k);
      }
    }

    static lemma OwnedGrows(before: map<Name, nat>, after: map<Name, nat>, stores: seq<StoreConfig>, k: nat)
      requires k < |stores| && stores[k].namespace !in before && after == before[stores[k].namespace := k]
      requires forall i {:trigger stores[i]} | 0 <= i < k ::
          stores[i].namespace in before && before[stores[i].namespace] == i
      requires forall ns {:trigger ns in before} | ns in before :: before[ns] < k && stores[before[ns]].namespace == ns
      ensures forall i {:trigger stores[i]} | 0 <= i < k + 1 ::
          stores[i].namespace in after && after[stores[i].namespace] == i
      ensures forall ns {:trigger ns in after} | ns in after :: after[ns] < k + 1 && stores[after[ns]].namespace == ns
    {
    }

    static lemma RoutedNamespacesAreDisjoint(router: Router, stores: seq<StoreConfig>)
      requires Routes(router, stores, |stores|)
      ensures DisjointNamespaces(stores)
    {
      forall i, j | 0 <= i < j < |stores| ensures !Overlap(stores[i].namespace, stores[j].namespace) {
        var a, b := stores[i].namespace, stores[j].namespace;
        if a <= b { router.NothingBelowStore(a, b); }
        if b <= a { router.NothingBelowStore(b, a); }
      }
    }

    /** Inserts the namespaces one after the other, stopping at the first that overlaps an earlier one. */
    static method BuildRouter(stores: seq<StoreConfig>) returns (r: Result<Router, LayoutError>)
      requires forall s | s in stores :: ValidStoreConfig(s)
      ensures r.Ok? <==> DisjointNamespaces(stores)
      ensures r.Ok? ==> fresh(r.value) && fresh(r.value.repr) && Routes(r.value, stores, |stores|)
      ensures r.Err? ==>
        && r.error.OverlappingNamespaces? && r.error.existing < r.error.added < |stores|
        && Overlap(stores[r.error.existing].namespace, stores[r.error.added].namespace)
    {
      var router := new Router();
      for k := 0 to |stores|
        invariant fresh(router) && fresh(router.repr)
        invariant Routes(router, stores, k)
      {
        assert stores[k] in stores;
        var clash := AddStore(router, stores, k);
        if clash.Some? {
          return Err(OverlappingNamespaces(clash.value, k));
        }
      }
      RoutedNamespacesAreDisjoint(router, stores);
      return Ok(router);
    }

    /** Accepts exactly the non-empty lists of stores with distinct ids and non-overlapping namespaces. */
    static method New(stores: seq<StoreConfig>) returns (r: Result<PolicyStoreLayout, LayoutError>)
      requires forall s | s in stores :: ValidStoreConfig(s)
      ensures r.Ok? <==> stores != [] && DistinctIds(stores) && DisjointNamespaces(stores)
      ensures r.Ok? ==> fresh(r.value) && r.value.Valid() && r.value.Value() == Layout(stores, {})
      ensures r == Err(NoStores) <==> stores == []
      ensures r.Err? && r.error.DuplicateId? ==>
        exists i, j | 0 <= i < j < |stores| :: stores[i].id == stores[j].id == r.error.id
      ensures r.Err? && r.error.OverlappingNamespaces? ==>
        && DistinctIds(stores) && r.error.existing < r.error.added < |stores|
        && Overlap(stores[r.error.existing].namespace, stores[r.error.added].namespace)
    {
      if stores == [] {
        return Err(NoStores);
      }
      var ids: set<string> := {};
      for k := 0 to |stores|
        invariant ids == set i | 0 <= i < k :: stores[i].id
        invariant DistinctIds(stores[..k])
      {
        if stores[k].id in ids {
          return Err(DuplicateId(stores[k].id));
        }
        ids := ids + {stores[k].id};
      }
      assert stores[..|stores|] == stores;
      var router := BuildRouter(stores);
      if router.Err? {
        return Err(router.error);
      }
      var layout := new PolicyStoreLayout.FromParts(stores, {}, router.value);
      return Ok(layout);
    }

    /** Registers further global ids; a blank one is refused, so none is ever recorded. */
    method WithGlobalPolicyIds(ids: seq<string>) returns (r: Result<PolicyStoreLayout, LayoutError>)
      requires Valid()
      ensures r.Ok? <==> forall id | id in ids :: !IsBlank(id)
      ensures r.Ok? ==> r.value.Valid() && r.value.stores == stores
      ensures r.Ok? ==> r.value.globalPolicyIds == globalPolicyIds + set id | id in ids
    {
      var all := globalPolicyIds;
      for k := 0 to |ids|
        invariant all == globalPolicyIds + set id | id in ids[..k]
        invariant forall id | id in ids[..k] :: !IsBlank(id)
      {
        if IsBlank(ids[k]) {
          return Err(BlankGlobalId);
        }
        all := all + {ids[k]};
        assert ids[..k + 1] == ids[..k] + [ids[k]];
      }
      assert ids[..|ids|] == ids;
      var layout := new PolicyStoreLayout.FromParts(stores, all, router);
      return Ok(layout);
    }

    /** Trie lookup gives what the scan over all stores gives. */
    method Lookup(name: Name) returns (found: Option<nat>)
      requires Valid()
      ensures found == Owner(Value(), name)
    {
      OwnerIsUnique(Value(), name);
      found := router.Resolve(name);
      if found == None {
        forall i: nat ensures !Owns(Value(), i, name) {
          if i < |stores| { assert stores[i].namespace in router.owned; }
        }
      } else {
        ghost var ns :| ns in router.owned && ns <= name && router.owned[ns] == found.value;
        assert Owns(Value(), found.value, name);
      }
    }

    method Route(action: ActionId, resourceType: Name) returns (r: Result<nat, RoutingError>)
      requires Valid()
      ensures r == ResolveRequest(Value(), action, resourceType)
    {
      var actionStore := Lookup(action.namespace);
      var resourceStore := Lookup(resourceType);
      match (actionStore, resourceStore) {
        case (Some(a), Some(b)) => r := if a != b then Err(CrossStore(a, b)) else Ok(a);
        case (Some(a), None) => r := Ok(a);
        case (None, Some(b)) => r := Ok(b);
        case (None, None) => r := Err(NoStore);
      }
    }

    /** The owners of a list of names. */
    method StoresOwning(references: seq<Name>) returns (candidates: set<nat>)
      requires Valid()
      ensures candidates == OwnersOf(Value(), references)
    {
      candidates := {};
      for k := 0 to |references|
        invariant candidates == OwnersOf(Value(), references[..k])
      {
        var owner := Lookup(references[k]);
        if owner.Some? {
          candidates := candidates + {owner.value};
        }
        OwnersOfAppend(Value(), references[..k], references[k]);
        TakeOneMore(references, k);
      }
      assert references[..|references|] == references;
    }

    /** The stores named anywhere in the policy: at most one, or an error naming all of them. */
    method PolicyCandidates(p: Policy) returns (r: Result<seq<nat>, CandidateError>)
      requires Valid()
      ensures r == Err(NotInspectable) <==> !p.inspectable
      ensures p.inspectable ==>
        var referenced := ReferencedStores(Value(), p);
        if |referenced| > 1 then r == Err(SpansStores(referenced))
        else r.Ok? && |r.value| == |referenced| && forall i :: i in r.value <==> i in referenced
    {
      if !p.inspectable {
        return Err(NotInspectable);
      }
      var references := CollectPolicyReferences(p);
      var candidates := StoresOwning(references);
      assert candidates == ReferencedStores(Value(), p);
      if |candidates| > 1 {
        return Err(SpansStores(candidates));
      }
      if candidates == {} {
        return Ok([]);
      }
      var only :| only in candidates;
      SingletonSet(candidates, only);
      return Ok([only]);
    }
  }

  /** All names a policy refers to: scope first, then every clause. */
  method CollectPolicyReferences(p: Policy) returns (references: seq<Name>)
    ensures references == PolicyReferences(p)
  {
    references := EntityReferences(p.principal);
    match p.action {
      case AnyAction =>
      case ActionEq(uid) => references := references + [uid.ty];
      case ActionIn(uids) => references := references + UidTypes(uids);
    }
    references := references + EntityReferences(p.resource);
    ghost var scope := references;
    for k := 0 to |p.clauses|
      invariant references == scope + ClauseReferences(p.clauses[..k])
    {
      ClauseReferencesAppend(p.clauses[..k], p.clauses[k]);
      assert p.clauses[..k + 1] == p.clauses[..k] + [p.clauses[k]];
      references := CollectExprReferences(p.clauses[k].body, references);
      AppendAssociative(scope, ClauseReferences(p.clauses[..k]), ExprReferences(p.clauses[k].body));
    }
    assert p.clauses[..|p.clauses|] == p.clauses;
  }

  lemma SingletonSet(s: set<nat>, x: nat)
    requires x in s && |s| <= 1
    ensures s == {x}
  {
    assert |s - {x}| == 0;
  }

  lemma {:induction false} ClauseReferencesAppend(clauses: seq<Clause>, c: Clause)
    ensures ClauseReferences(clauses + [c]) == ClauseReferences(clauses) + ExprReferences(c.body)
  {
    if clauses == [] {
    } else {
      ClauseReferencesAppend(clauses[1..], c);
      assert (clauses + [c])[1..] == clauses[1..] + [c];
      AppendAssociative(ExprReferences(clauses[0].body), ClauseReferences(clauses[1..]), ExprReferences(c.body));
    }
  }

  /** The recursive walk over a condition, appending to the references found so far. */
  method CollectExprReferences(e: Expr, references: seq<Name>) returns (out: seq<Name>)
    ensures out == references + ExprReferences(e)
    decreases e, 0
  {
    out := references;
    match e {
      case EntityLiteral(uid) => out := out + [uid.ty];
      case UnaryOp(a) => out := CollectExprReferences(a, out);
      case GetAttr(a, _) => out := CollectExprReferences(a, out);
      case HasAttr(a, _) => out := CollectExprReferences(a, out);
      case Like(a, _) => out := CollectExprReferences(a, out);
      case BinaryOp(l, r) =>
        out := CollectExprReferences(l, out);
        out := CollectExprReferences(r, out);
        AppendAssociative(references, ExprReferences(l), ExprReferences(r));
      case IsType(a, ty, inArg) =>
        out := out + [ty];
        out := CollectExprReferences(a, out);
        AppendAssociative(references, [ty], ExprReferences(a));
        if inArg.Some? {
          out := CollectExprReferences(inArg.value, out);
          AppendAssociative(references, [ty] + ExprReferences(a), ExprReferences(inArg.value));
        }
      case IfThenElse(c, t, f) =>
        out := CollectExprReferences(c, out);
        out := CollectExprReferences(t, out);
        out := CollectExprReferences(f, out);
        AppendAssociative(references, ExprReferences(c), ExprReferences(t));
        AppendAssociative(references, ExprReferences(c) + ExprReferences(t), ExprReferences(f));
      case SetOf(items) => out := CollectSetReferences(items, out);
      case RecordOf(fields) => out := CollectRecordReferences(fields, out);
      case Opaque =>
    }
  }

  method CollectSetReferences(items: seq<Expr>, references: seq<Name>) returns (out: seq<Name>)
    ensures out == references + AllReferences(items)
    decreases items, 1
  {
    out := references;
    for k := 0 to |items|
      invariant out == references + AllReferences(items[..k])
    {
      out := CollectExprReferences(items[k], out);
      AllReferencesAppend(items[..k], items[k]);
      AppendAssociative(references, AllReferences(items[..k]), ExprReferences(items[k]));
      assert items[..k + 1] == items[..k] + [items[k]];
    }
    assert items[..|items|] == items;
  }

  method CollectRecordReferences(fields: seq<Field>, references: seq<Name>) returns (out: seq<Name>)
    ensures out == references + FieldReferences(fields)
    decreases fields, 1
  {
    out := references;
    for k := 0 to |fields|
      invariant out == references + FieldReferences(fields[..k])
    {
      out := CollectExprReferences(fields[k].value, out);
      FieldReferencesAppend(fields[..k], fields[k]);
      AppendAssociative(references, FieldReferences(fields[..k]), ExprReferences(fields[k].value));
      assert fields[..k + 1] == fields[..k] + [fields[k]];
    }
    assert fields[..|fields|] == fields;
  }

  lemma {:induction false} AllReferencesAppend(es: seq<Expr>, e: Expr)
    ensures AllReferences(es + [e]) == AllReferences(es) + ExprReferences(e)
  {
    if es == [] {
    } else {
      AllReferencesAppend(es[1..], e);
      assert (es + [e])[1..] == es[1..] + [e];
      AppendAssociative(ExprReferences(es[0]), AllReferences(es[1..]), ExprReferences(e));
    }
  }

  lemma {:induction false} FieldReferencesAppend(fs: seq<Field>, f: Field)
    ensures FieldReferences(fs + [f]) == FieldReferences(fs) + ExprReferences(f.value)
  {
    if fs == [] {
    } else {
      FieldReferencesAppend(fs[1..], f);
      assert (fs + [f])[1..] == fs[1..] + [f];
      AppendAssociative(ExprReferences(fs[0].value), FieldReferences(fs[1..]), ExprReferences(f.value));
    }
  }
}
