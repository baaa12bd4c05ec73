/**
 Label registries (`src/labels.rs`): each registered labeler owns one attribute of one resource type. Applying a
 registry clears every owned attribute of the resource's type and then derives them in registration order.
 A labeler's `derive` is an arbitrary deterministic function of the resource it is shown.
 */
module Labels {
  import opened Prelude
  import opened Cedar

  datatype Target = Target(resourceType: Name, attribute: string)

  datatype Labeler = Labeler(target: Target, derive: Resource -> Option<AttrValue>)

  datatype LabelRegistry = LabelRegistry(version: Option<string>, scopes: map<Name, seq<Labeler>>)

  datatype LabelError = BlankVersion | DuplicateTarget(target: Target)

  function OwnedBy(labelers: seq<Labeler>): set<string> {
    set k | 0 <= k < |labelers| :: labelers[k].target.attribute
  }

  function Scope(registry: LabelRegistry, ty: Name): seq<Labeler> {
    if ty in registry.scopes then registry.scopes[ty] else []
  }

  /** The attributes a registry owns on one resource type. */
  function Owned(registry: LabelRegistry, ty: Name): set<string> {
    OwnedBy(Scope(registry, ty))
  }

  ghost predicate DistinctOutputs(labelers: seq<Labeler>) {
    forall i, j | 0 <= i < j < |labelers| :: labelers[i].target.attribute != labelers[j].target.attribute
  }

  // ---------- What application computes ----------

  /** Drop the owned attribute, then store what is derived from the rest. */
  function ApplyLabeler(labeler: Labeler, r: Resource): Resource {
    var cleared := r.(attrs := r.attrs - {labeler.target.attribute});
    match labeler.derive(cleared)
    case None => cleared
    case Some(v) => cleared.(attrs := cleared.attrs[labeler.target.attribute := v])
  }

  function DeriveAll(labelers: seq<Labeler>, r: Resource): Resource
    decreases |labelers|
  {
    if labelers == [] then r
    else ApplyLabeler(labelers[|labelers| - 1], DeriveAll(labelers[..|labelers| - 1], r))
  }

  function ApplyScope(labelers: seq<Labeler>, r: Resource): Resource {
    DeriveAll(labelers, r.(attrs := r.attrs - OwnedBy(labelers)))
  }

  function Apply(registry: LabelRegistry, r: Resource): Resource {
    if r.uid.ty in registry.scopes then ApplyScope(registry.scopes[r.uid.ty], r) else r
  }

  // ---------- What it means ----------

  lemma {:induction false} DeriveTouchesOnlyOwned(labelers: seq<Labeler>, r: Resource)
    ensures DeriveAll(labelers, r).uid == r.uid
    ensures forall a | a !in OwnedBy(labelers) :: a in DeriveAll(labelers, r).attrs <==> a in r.attrs
    ensures forall a | a !in OwnedBy(labelers) && a in r.attrs :: DeriveAll(labelers, r).attrs[a] == r.attrs[a]
    decreases |labelers|
  {
    if labelers == [] {
    } else {
      var rest := labelers[..|labelers| - 1];
      DeriveTouchesOnlyOwned(rest, r);
      assert forall k | 0 <= k < |rest| :: rest[k] == labelers[k];
      assert forall a :: a !in OwnedBy(labelers) ==>
          a !in OwnedBy(rest) && a != labelers[|labelers| - 1].target.attribute;
    }
  }

  /** Identity, type and every attribute the registry does not own survive application. */
  lemma UnownedAttributesSurvive(registry: LabelRegistry, r: Resource)
    ensures Apply(registry, r).uid == r.uid
    ensures Apply(registry, r).attrs - Owned(registry, r.uid.ty) == r.attrs - Owned(registry, r.uid.ty)
    ensures r.uid.ty !in registry.scopes ==> Apply(registry, r) == r
  {
    if r.uid.ty in registry.scopes {
      var labelers := registry.scopes[r.uid.ty];
      DeriveTouchesOnlyOwned(labelers, r.(attrs := r.attrs - OwnedBy(labelers)));
    }
  }

  /** Owned attributes supplied by a caller have no influence on the outcome. */
  lemma NonInterference(registry: LabelRegistry, r: Resource, s: Resource)
    requires r.uid == s.uid
    requires r.attrs - Owned(registry, r.uid.ty) == s.attrs - Owned(registry, r.uid.ty)
    ensures Apply(registry, r) == Apply(registry, s)
  {
    if r.uid.ty !in registry.scopes {
      assert Owned(registry, r.uid.ty) == {};
      assert r.attrs - {} == r.attrs && s.attrs - {} == s.attrs;
    }
  }

  lemma Idempotent(registry: LabelRegistry, r: Resource)
    ensures Apply(registry, Apply(registry, r)) == Apply(registry, r)
  {
    UnownedAttributesSurvive(registry, r);
    NonInterference(registry, r, Apply(registry, r));
  }

  function Lookup(attrs: Attributes, a: string): Option<AttrValue> {
    if a in attrs then Some(attrs[a]) else None
  }

  /** What labeler `k` may see: every attribute but those owned by itself and by later labelers. */
  function Before(labelers: seq<Labeler>, k: nat, r: Resource): Resource
    requires k <= |labelers|
  {
    r.(attrs := r.attrs - OwnedBy(labelers[k..]))
  }

  /** Each owned attribute is what its labeler derives from the unowned ones and the earlier outputs. */
  ghost predicate Labelled(labelers: seq<Labeler>, r: Resource) {
    forall k {:trigger labelers[k]} | 0 <= k < |labelers| ::
      Lookup(r.attrs, labelers[k].target.attribute) == labelers[k].derive(Before(labelers, k, r))
  }

  lemma {:induction false} DeriveInOrder(labelers: seq<Labeler>, n: nat, r: Resource)
    requires n <= |labelers| && DistinctOutputs(labelers) && r.attrs.Keys !! OwnedBy(labelers)
    ensures var out := DeriveAll(labelers[..n], r);
      && out.attrs.Keys !! OwnedBy(labelers[n..])
      && forall k {:trigger labelers[k]} | 0 <= k < n ::
           Lookup(out.attrs, labelers[k].target.attribute) == labelers[k].derive(Before(labelers, k, out))
  {
    if n == 0 {
    } else {
      var m := n - 1;
      var lb := labelers[m];
      var prev := DeriveAll(labelers[..m], r);
      var out := DeriveAll(labelers[..n], r);
      DeriveInOrder(labelers, m, r);
      assert labelers[..n][..m] == labelers[..m] && labelers[..n][m] == lb;
      OwnedSplits(labelers, m);
      assert out == ApplyLabeler(lb, prev);
      assert prev.attrs - {lb.target.attribute} == prev.attrs;
      assert Before(labelers, m, out) == prev;
      forall k | 0 <= k < m
        ensures Lookup(out.attrs, labelers[k].target.attribute) == labelers[k].derive(Before(labelers, k, out))
      {
        assert labelers[k..][m - k] == lb;
        assert Before(labelers, k, out) == Before(labelers, k, prev);
      }
    }
  }

  lemma OwnedSplits(labelers: seq<Labeler>, m: nat)
    requires m < |labelers| && DistinctOutputs(labelers)
    ensures OwnedBy(labelers[m..]) == {labelers[m].target.attribute} + OwnedBy(labelers[m + 1..])
    ensures labelers[m].target.attribute !in OwnedBy(labelers[m + 1..])
  {
    assert labelers[m..] == [labelers[m]] + labelers[m + 1..];
    forall a
      ensures a in OwnedBy(labelers[m..]) <==>
        a == labelers[m].target.attribute || a in OwnedBy(labelers[m + 1..])
    {
      if a == labelers[m].target.attribute { assert labelers[m..][0] == labelers[m]; }
      if a in OwnedBy(labelers[m + 1..]) {
        var k :| 0 <= k < |labelers[m + 1..]| && labelers[m + 1..][k].target.attribute == a;
        assert labelers[m..][k + 1] == labelers[m + 1..][k];
      }
    }
    assert forall k {:trigger labelers[m + 1..][k]} | 0 <= k < |labelers[m + 1..]| ::
        labelers[m + 1..][k] == labelers[m + 1 + k];
  }

  lemma ApplyLabels(labelers: seq<Labeler>, r: Resource)
    requires DistinctOutputs(labelers)
    ensures Labelled(labelers, ApplyScope(labelers, r))
    ensures ApplyScope(labelers, r).uid == r.uid
    ensures ApplyScope(labelers, r).attrs - OwnedBy(labelers) == r.attrs - OwnedBy(labelers)
  {
    var cleared := r.(attrs := r.attrs - OwnedBy(labelers));
    assert labelers[..|labelers|] == labelers;
    DeriveInOrder(labelers, |labelers|, cleared);
    DeriveTouchesOnlyOwned(labelers, cleared);
  }

  /** Application yields a labelled resource, and only one labelled resource has those unowned attributes. */
  lemma ApplyIsTheLabelling(labelers: seq<Labeler>, r: Resource, s: Resource)
    requires DistinctOutputs(labelers)
    requires s.uid == r.uid && s.attrs - OwnedBy(labelers) == r.attrs - OwnedBy(labelers)
    ensures Labelled(labelers, s) <==> s == ApplyScope(labelers, r)
  {
    var out := ApplyScope(labelers, r);
    ApplyLabels(labelers, r);
    if Labelled(labelers, s) {
      LabellingIsUnique(labelers, |labelers|, s, out);
      assert Before(labelers, |labelers|, s) == s && Before(labelers, |labelers|, out) == out;
    }
  }

  lemma {:induction false} LabellingIsUnique(labelers: seq<Labeler>, n: nat, r: Resource, s: Resource)
    requires n <= |labelers| && DistinctOutputs(labelers)
    requires Labelled(labelers, r) && Labelled(labelers, s)
    requires r.uid == s.uid && r.attrs - OwnedBy(labelers) == s.attrs - OwnedBy(labelers)
    ensures Before(labelers, n, r) == Before(labelers, n, s)
  {
    if n == 0 {
      assert labelers[0..] == labelers;
    } else {
      var m := n - 1;
      LabellingIsUnique(labelers, m, r, s);
      OwnedSplits(labelers, m);
      var a := labelers[m].target.attribute;
      assert Lookup(r.attrs, a) == Lookup(s.attrs, a);
      forall x ensures Lookup(Before(labelers, n, r).attrs, x) == Lookup(Before(labelers, n, s).attrs, x) {
        if x != a {
          assert Lookup(Before(labelers, n, r).attrs, x) == Lookup(Before(labelers, m, r).attrs, x);
          assert Lookup(Before(labelers, n, s).attrs, x) == Lookup(Before(labelers, m, s).attrs, x);
        }
      }
      LookupDetermines(Before(labelers, n, r).attrs, Before(labelers, n, s).attrs);
    }
  }

  /** What a registry makes of a resource, said without its loops. */
  ghost predicate IsLabelledBy(registry: LabelRegistry, r: Resource, s: Resource) {
    && s.uid == r.uid
    && (forall a | a !in Owned(registry, r.uid.ty) :: Lookup(s.attrs, a) == Lookup(r.attrs, a))
    && Labelled(Scope(registry, r.uid.ty), s)
  }

  /** Applying a registry whose outputs have one owner each gives exactly that resource. */
  lemma ApplyIsLabelledBy(registry: LabelRegistry, r: Resource, s: Resource)
    requires DistinctOutputs(Scope(registry, r.uid.ty))
    ensures s == Apply(registry, r) <==> IsLabelledBy(registry, r, s)
  {
    var labelers := Scope(registry, r.uid.ty);
    var out := Apply(registry, r);
    if r.uid.ty !in registry.scopes {
      assert r.attrs - {} == r.attrs;
      assert ApplyScope(labelers, r) == r;
    }
    assert out == ApplyScope(labelers, r);
    UnownedAttributesSurvive(registry, r);
    if s.uid == r.uid {
      SameUnowned(r.attrs, s.attrs, OwnedBy(labelers));
      ApplyIsTheLabelling(labelers, r, if s.attrs - OwnedBy(labelers) == r.attrs - OwnedBy(labelers) then s else out);
    }
  }

  lemma SameUnowned(a: Attributes, b: Attributes, owned: set<string>)
    ensures b - owned == a - owned <==> forall x | x !in owned :: Lookup(b, x) == Lookup(a, x)
  {
    if b - owned == a - owned {
      forall x | x !in owned ensures Lookup(b, x) == Lookup(a, x) {
        assert Lookup(b - owned, x) == Lookup(a - owned, x);
      }
    }
    if forall x | x !in owned :: Lookup(b, x) == Lookup(a, x) {
      forall x ensures Lookup(b - owned, x) == Lookup(a - owned, x) {
        if x !in owned { assert Lookup(b, x) == Lookup(a, x); }
      }
      LookupDetermines(b - owned, a - owned);
    }
  }

  lemma LookupDetermines(a: Attributes, b: Attributes)
    requires forall x :: Lookup(a, x) == Lookup(b, x)
    ensures a == b
  {
    forall x ensures (x in a <==> x in b) && (x in a ==> a[x] == b[x]) {
      assert Lookup(a, x) == Lookup(b, x);
    }
  }

  // ---------- The mutable resource ----------

  class MutableResource {
    const uid: Uid
    var attrs: Attributes

    function Value(): Resource
      reads this
    {
      Resource(uid, attrs)
    }

    constructor (r: Resource)
      ensures Value() == r
    {
      uid := r.uid;
      attrs := r.attrs;
    }
  }

  /** The one owned attribute is what is derived without it; nothing else has changed. */
  ghost predicate IsDerivedBy(labeler: Labeler, r: Resource, s: Resource) {
    var output := labeler.target.attribute;
    && s.uid == r.uid
    && Lookup(s.attrs, output) == labeler.derive(r.(attrs := r.attrs - {output}))
    && forall a | a != output :: Lookup(s.attrs, a) == Lookup(r.attrs, a)
  }

  /** RegisteredLabeler::apply: the caller has already matched the type. */
  method ApplyRegistered(labeler: Labeler, resource: MutableResource)
    modifies resource`attrs
    ensures resource.Value() == ApplyLabeler(labeler, old(resource.Value()))
    ensures IsDerivedBy(labeler, old(resource.Value()), resource.Value())
  {
    resource.attrs := resource.attrs - {labeler.target.attribute};
    var derived := labeler.derive(resource.Value());
    if derived.Some? {
      resource.attrs := resource.attrs[labeler.target.attribute := derived.value];
    }
  }

  /** LabelerApply::apply: a labeler used alone checks the exact type itself. */
  method ApplyAlone(labeler: Labeler, resource: MutableResource)
    modifies resource`attrs
    ensures resource.Value() ==
      if resource.uid.ty == labeler.target.resourceType then ApplyLabeler(labeler, old(resource.Value()))
      else old(resource.Value())
    ensures resource.uid.ty == labeler.target.resourceType ==>
      IsDerivedBy(labeler, old(resource.Value()), resource.Value())
  {
    if labeler.target.resourceType != resource.uid.ty {
      return;
    }
    ApplyRegistered(labeler, resource);
  }

  method ApplyScopeInPlace(labelers: seq<Labeler>, resource: MutableResource)
    modifies resource`attrs
    ensures resource.Value() == ApplyScope(labelers, old(resource.Value()))
  {
    for k := 0 to |labelers|
      invariant resource.attrs == old(resource.attrs) - OwnedBy(labelers[..k])
    {
      resource.attrs := resource.attrs - {labelers[k].target.attribute};
      assert labelers[..k + 1] == labelers[..k] + [labelers[k]];
      OwnedByAppend(labelers[..k], labelers[k]);
    }
    assert labelers[..|labelers|] == labelers;
    ghost var cleared := resource.Value();
    for k := 0 to |labelers|
      invariant resource.Value() == DeriveAll(labelers[..k], cleared)
    {
      ApplyRegistered(labelers[k], resource);
      assert labelers[..k + 1][..k] == labelers[..k];
    }
  }

  lemma OwnedByAppend(labelers: seq<Labeler>, labeler: Labeler)
    ensures OwnedBy(labelers + [labeler]) == OwnedBy(labelers) + {labeler.target.attribute}
  {
    var all := labelers + [labeler];
    assert all[|labelers|] == labeler;
    assert forall k | 0 <= k < |labelers| :: all[k] == labelers[k];
  }

  /** LabelRegistry::apply. */
  method ApplyRegistry(registry: LabelRegistry, resource: MutableResource)
    modifies resource`attrs
    ensures resource.Value() == Apply(registry, old(resource.Value()))
  {
    if resource.uid.ty in registry.scopes {
      ApplyScopeInPlace(registry.scopes[resource.uid.ty], resource);
    }
  }

  /** apply_to_clone_if_applicable: None stands for "use the resource as it is". */
  method ApplyToCloneIfApplicable(registry: LabelRegistry, r: Resource) returns (labelled: Option<Resource>)
    ensures (if labelled.Some? then labelled.value else r) == Apply(registry, r)
    ensures labelled == None <==> r.uid.ty !in registry.scopes
  {
    if r.uid.ty !in registry.scopes {
      return None;
    }
    var copy := new MutableResource(r);
    ApplyScopeInPlace(registry.scopes[r.uid.ty], copy);
    labelled := Some(copy.Value());
  }

  // ---------- Building a registry ----------

  /** The labelers of one type, in registration order. */
  function OfType(labelers: seq<Labeler>, ty: Name): seq<Labeler>
    decreases |labelers|
  {
    if labelers == [] then []
    else
      var rest := OfType(labelers[..|labelers| - 1], ty);
      var last := labelers[|labelers| - 1];
      if last.target.resourceType == ty then rest + [last] else rest
  }

  ghost predicate DistinctTargets(labelers: seq<Labeler>) {
    forall i, j | 0 <= i < j < |labelers| :: labelers[i].target != labelers[j].target
  }

  /** A type has an entry exactly when some labeler targets it. */
  ghost predicate Indexes(scopes: map<Name, seq<Labeler>>, labelers: seq<Labeler>) {
    forall ty :: (ty in scopes <==> OfType(labelers, ty) != []) && (ty in scopes ==> scopes[ty] == OfType(labelers, ty))
  }

  /** The positions pick, in increasing order, every labeler of a type and no other. */
  ghost predicate Picks(positions: seq<nat>, scope: seq<Labeler>, labelers: seq<Labeler>, ty: Name) {
    && |positions| == |scope|
    && (forall i, j | 0 <= i < j < |positions| :: positions[i] < positions[j])
    && (forall i | 0 <= i < |positions| :: positions[i] < |labelers| && labelers[positions[i]] == scope[i])
    && (forall k: nat :: k in positions <==> k < |labelers| && labelers[k].target.resourceType == ty)
  }

  /** The labelers of one type, all of them, as they were registered. */
  ghost predicate InRegistrationOrder(scope: seq<Labeler>, labelers: seq<Labeler>, ty: Name) {
    exists positions :: Picks(positions, scope, labelers, ty)
  }

  lemma {:induction false} OfTypeKeepsOrder(labelers: seq<Labeler>, ty: Name) returns (positions: seq<nat>)
    ensures Picks(positions, OfType(labelers, ty), labelers, ty)
    decreases |labelers|
  {
    if labelers == [] {
      positions := [];
    } else {
      var n := |labelers| - 1;
      var before := OfTypeKeepsOrder(labelers[..n], ty);
      if labelers[n].target.resourceType == ty {
        positions := before + [n];
        PicksLast(before, OfType(labelers[..n], ty), labelers, ty);
      } else {
        positions := before;
        PicksNoMore(before, OfType(labelers[..n], ty), labelers, ty);
      }
    }
  }

  lemma PicksNoMore(before: seq<nat>, scope: seq<Labeler>, labelers: seq<Labeler>, ty: Name)
    requires labelers != [] && Picks(before, scope, labelers[..|labelers| - 1], ty)
    requires labelers[|labelers| - 1].target.resourceType != ty
    ensures Picks(before, scope, labelers, ty)
  {
    var rest := labelers[..|labelers| - 1];
    assert forall k | 0 <= k < |rest| :: rest[k] == labelers[k];
  }

  lemma PicksLast(before: seq<nat>, scope: seq<Labeler>, labelers: seq<Labeler>, ty: Name)
    requires labelers != [] && Picks(before, scope, labelers[..|labelers| - 1], ty)
    requires labelers[|labelers| - 1].target.resourceType == ty
    ensures Picks(before + [|labelers| - 1], scope + [labelers[|labelers| - 1]], labelers, ty)
  {
    var n := |labelers| - 1;
    var rest, positions := labelers[..n], before + [n];
    assert forall k | 0 <= k < n :: rest[k] == labelers[k];
    forall i | 0 <= i < |before| ensures before[i] < n && positions[i] == before[i] {
      assert before[i] in before;
    }
    forall k: nat ensures k in positions <==> k < |labelers| && labelers[k].target.resourceType == ty {
      assert k in positions <==> k in before || k == n;
    }
  }

  method Build(version: Option<string>, labelers: seq<Labeler>) returns (r: Result<LabelRegistry, LabelError>)
    ensures r.Ok? <==> (version.Some? ==> !IsBlank(version.value)) && DistinctTargets(labelers)
    ensures r.Ok? ==> r.value.version == version && Indexes(r.value.scopes, labelers)
    ensures r.Ok? ==> forall ty :: InRegistrationOrder(Scope(r.value, ty), labelers, ty)
    ensures r.Ok? ==> forall ty :: DistinctOutputs(Scope(r.value, ty))
    ensures r == Err(BlankVersion) <==> version.Some? && IsBlank(version.value)
    ensures r.Err? && r.error.DuplicateTarget? ==>
      exists i, j | 0 <= i < j < |labelers| :: labelers[i].target == labelers[j].target == r.error.target
  {
    if version.Some? && IsBlank(version.value) {
      return Err(BlankVersion);
    }
    var targets: set<Target> := {};
    var scopes: map<Name, seq<Labeler>> := map[];
    for k := 0 to |labelers|
      invariant targets == set i | 0 <= i < k :: labelers[i].target
      invariant DistinctTargets(labelers[..k])
      invariant Indexes(scopes, labelers[..k])
    {
      var target := labelers[k].target;
      if target in targets {
        return Err(DuplicateTarget(target));
      }
      targets := targets + {target};
      var ty := target.resourceType;
      scopes := scopes[ty := (if ty in scopes then scopes[ty] else []) + [labelers[k]]];
      assert labelers[..k + 1][..k] == labelers[..k];
    }
    assert labelers[..|labelers|] == labelers;
    r := Ok(LabelRegistry(version, scopes));
    forall ty
      ensures InRegistrationOrder(Scope(r.value, ty), labelers, ty) && DistinctOutputs(Scope(r.value, ty))
    {
      BuiltScopesHaveDistinctOutputs(labelers, ty);
      var positions := OfTypeKeepsOrder(labelers, ty);
      assert Scope(r.value, ty) == OfType(labelers, ty);
      assert Picks(positions, Scope(r.value, ty), labelers, ty);
    }
  }

  lemma {:induction false} OfTypeMembers(labelers: seq<Labeler>, ty: Name)
    ensures forall x | x in OfType(labelers, ty) :: x in labelers && x.target.resourceType == ty
    decreases |labelers|
  {
    if labelers == [] {
    } else {
      OfTypeMembers(labelers[..|labelers| - 1], ty);
    }
  }

  /** In a registry that builds, no attribute of a type has two owners. */
  lemma {:induction false} BuiltScopesHaveDistinctOutputs(labelers: seq<Labeler>, ty: Name)
    requires DistinctTargets(labelers)
    ensures DistinctOutputs(OfType(labelers, ty))
    decreases |labelers|
  {
    if labelers == [] {
    } else {
      var rest := labelers[..|labelers| - 1];
      var last := labelers[|labelers| - 1];
      BuiltScopesHaveDistinctOutputs(rest, ty);
      OfTypeMembers(rest, ty);
      forall i | 0 <= i < |OfType(rest, ty)| && last.target.resourceType == ty
        ensures OfType(rest, ty)[i].target.attribute != last.target.attribute
      {
        var x := OfType(rest, ty)[i];
        assert x in rest;
        var k :| 0 <= k < |rest| && labelers[k] == x;
        assert x.target != last.target;
      }
    }
  }
}
