/**
 The namespace trie of `src/policy_store.rs`: nodes are objects, `Insert` grows the tree in place and `Resolve`
 walks it. The ghost map `nodes` names every node by its path from the root, so the invariant needs no recursion.
 */
module NamespaceRouter {
  import opened Prelude

  type Path = seq<string>

  class Node {
    var storeIndex: Option<nat>
    var children: map<string, Node>

    constructor ()
      ensures storeIndex == None && children == map[]
    {
      storeIndex := None;
      children := map[];
    }
  }

  predicate Overlap(a: Path, b: Path) {
    a <= b || b <= a
  }

  class Router {
    var root: Node
    ghost var nodes: map<Path, Node>
    ghost var repr: set<Node>
    ghost var owned: map<Path, nat>  // the namespaces inserted so far, with their store indexes

    /** The tree shape: every child edge is named in `nodes` and every named node hangs off its parent. */
    ghost predicate Shape()
      reads this, repr
    {
      && [] in nodes && nodes[[]] == root
      && (forall p {:trigger nodes[p]} | p in nodes :: nodes[p] in repr)
      && (forall p, c {:trigger p + [c] in nodes} :: p + [c] in nodes ==>
            p in nodes && c in nodes[p].children && nodes[p].children[c] == nodes[p + [c]])
      && (forall p, c {:trigger c in nodes[p].children} ::
            p in nodes && c in nodes[p].children ==> p + [c] in nodes)
    }

    /** No object serves as two nodes. */
    ghost predicate Unshared()
      reads this
    {
      forall p, q {:trigger nodes[p], nodes[q]} ::
        p in nodes && q in nodes && p != q ==> nodes[p] != nodes[q]
    }

    ghost predicate HasStore(p: Path)
      reads this
    {
      exists q :: q in owned && p <= q
    }

    /** Stores sit exactly at the inserted namespaces and have no children. */
    ghost predicate Stores()
      reads this, repr
    {
      && Shape()
      && [] !in owned
      && (forall p {:trigger p in owned} :: p in owned ==> p in nodes && nodes[p].children == map[])
      && (forall p {:trigger nodes[p]} | p in nodes ::
            nodes[p].storeIndex == if p in owned then Some(owned[p]) else None)
    }

    /** Every node but the root has a store at or below it. */
    ghost predicate Valid()
      reads this, repr
    {
      Stores() && Unshared() && forall p {:trigger HasStore(p)} :: p in nodes && p != [] ==> HasStore(p)
    }

    constructor ()
      ensures Valid() && fresh(repr) && owned == map[]
    {
      var r := new Node();
      root := r;
      nodes := map[[] := r];
      repr := {r};
      owned := map[];
    }

    ghost function Below(path: Path): set<Path>
      reads this
    {
      set q | q in nodes && path <= q
    }

    /** Some store at or below `node`, searching the children in no particular order. */
    method FirstStoreIndex(node: Node, ghost path: Path) returns (found: Option<nat>)
      requires Stores() && path in nodes && nodes[path] == node
      ensures found == None <==> forall q | q in owned :: !(path <= q)
      ensures found.Some? ==> exists q :: q in owned && path <= q && owned[q] == found.value
      decreases Below(path)
    {
      if node.storeIndex.Some? {
        return node.storeIndex;
      }
      forall q | q in owned && path <= q ensures path < q && q[|path|] in node.children {
        assert path !in owned && (|path| == |q| ==> path == q);
        StepTowards(path, q);
      }
      var todo := node.children.Keys;
      while todo != {}
        invariant todo <= node.children.Keys
        invariant forall q | q in owned && path <= q :: q[|path|] in todo
      {
        var c :| c in todo;
        todo := todo - {c};
        ghost var next := path + [c];
        assert node.children[c] == nodes[next];
        assert path in Below(path) && path !in Below(next) && Below(next) <= Below(path);
        found := FirstStoreIndex(node.children[c], next);
        if found.Some? {
          return;
        }
        assert forall q | q in owned && path <= q :: q[|path|] == c ==> next <= q;
      }
      found := None;
    }

    /** From a named node the next edge towards any named descendant exists. */
    lemma {:induction false} StepTowards(p: Path, q: Path)
      requires Shape() && p in nodes && q in nodes && p < q
      ensures q[|p|] in nodes[p].children && p + [q[|p|]] <= q
      decreases |q|
    {
      var parent := q[..|q| - 1];
      assert q == parent + [q[|q| - 1]];
      if |parent| == |p| {
        assert parent == p;
      } else {
        assert p < parent;
        StepTowards(p, parent);
      }
    }

    lemma {:induction false} PrefixesAreNamed(p: Path, q: Path)
      requires Shape() && q in nodes && p <= q
      ensures p in nodes
      decreases |q|
    {
      if p == q {
      } else {
        assert q == q[..|q| - 1] + [q[|q| - 1]];
        PrefixesAreNamed(p, q[..|q| - 1]);
      }
    }

    /** `Valid`, except that nodes on the way to `namespace` need no store below them yet. */
    ghost predicate Pending(namespace: Path)
      reads this, repr
    {
      && Stores() && Unshared()
      && forall p {:trigger HasStore(p)} :: p in nodes && p != [] && !(p <= namespace) ==> HasStore(p)
    }

    static lemma AppendInjective(here: Path, component: string)
      ensures forall p, c {:trigger p + [c]} :: p + [c] == here + [component] ==> p == here && c == component
    {
      var next := here + [component];
      forall p, c {:trigger p + [c]} | p + [c] == next ensures p == here && c == component {
        assert p == next[..|next| - 1] && c == next[|next| - 1];
      }
    }

    /** Hangs a new, empty node below a named one. */
    method AddChild(node: Node, ghost here: Path, component: string) returns (child: Node)
      requires Shape() && Unshared() && here in nodes && nodes[here] == node && component !in node.children
      modifies this`nodes, this`repr, node`children
      ensures Shape() && Unshared() && fresh(child) && child.storeIndex == None && child.children == map[]
      ensures here + [component] !in old(nodes)
      ensures nodes == old(nodes)[here + [component] := child] && repr == old(repr) + {child}
    {
      ghost var next := here + [component];
      child := new Node();
      AppendInjective(here, component);
      node.children := node.children[component := child];
      nodes := nodes[next := child];
      repr := repr + {child};
      forall p, c {:trigger p + [c] in nodes} | p + [c] in nodes
        ensures p in nodes && c in nodes[p].children && nodes[p].children[c] == nodes[p + [c]]
      {
        assert p + [c] == next ==> p == here && c == component;
        assert p + [c] != next ==> p + [c] in old(nodes);
      }
      forall p, c {:trigger c in nodes[p].children} | p in nodes && c in nodes[p].children
        ensures p + [c] in nodes
      {
        assert p == next || p in old(nodes);
        assert p == here ==> c == component || c in old(node.children);
      }
    }

    /** The child of `node` called `component`, created when missing (the map entry with its default). */
    method Enter(node: Node, ghost here: Path, component: string, ghost namespace: Path)
      returns (child: Node, ghost created: bool)
      requires Pending(namespace) && here in nodes && nodes[here] == node && here !in owned
      requires here + [component] <= namespace
      modifies this`nodes, this`repr, node`children
      ensures Pending(namespace) && fresh(repr - old(repr))
      ensures here + [component] in nodes && nodes[here + [component]] == child
      ensures !created ==> unchanged(this) && unchanged(node) && component in old(node.children)
      ensures created ==> fresh(child) && child.children == map[]
      ensures created ==> forall q | q in owned :: !(here + [component] <= q)
    {
      ghost var next := here + [component];
      if component in node.children {
        child := node.children[component];
        created := false;
      } else {
        forall q | q in owned ensures !(next <= q) {
          if next <= q { PrefixesAreNamed(next, q); }
        }
        child := AddChild(node, here, component);
        created := true;
        forall p | p in nodes && p != [] && !(p <= namespace) ensures HasStore(p) {
          assert old(HasStore(p));
          ghost var q :| q in old(owned) && p <= q;
          assert q in owned;
        }
      }
    }

    lemma FreeNodeIsLeaf(namespace: Path)
      requires Pending(namespace) && namespace in nodes
      requires forall p | p in owned :: !(namespace <= p)
      ensures nodes[namespace].children == map[]
    {
      var children := nodes[namespace].children;
      forall c | c in children ensures HasStore(namespace + [c]) {
        assert namespace + [c] in nodes;
      }
      assert children.Keys == {};
    }

    /** Turns the node of a free namespace into a store. */
    method Claim(node: Node, namespace: Path, storeIndex: nat)
      requires Pending(namespace) && namespace != [] && namespace in nodes && nodes[namespace] == node
      requires forall p | p in owned :: !Overlap(p, namespace)
      modifies this`owned, node`storeIndex
      ensures Valid() && owned == old(owned)[namespace := storeIndex]
    {
      FreeNodeIsLeaf(namespace);
      node.storeIndex := Some(storeIndex);
      owned := owned[namespace := storeIndex];
      forall p | p in nodes && p != [] ensures HasStore(p) {
        if p <= namespace {
          assert namespace in owned;
        } else {
          assert old(HasStore(p));
          ghost var q :| q in old(owned) && p <= q;
          assert q in owned;
        }
      }
    }

    lemma FreeNamespaceOverlapsNothing(namespace: Path)
      requires Stores() && namespace in nodes && namespace !in owned
      requires forall q | q in owned :: !(namespace <= q)
      ensures forall p | p in owned :: !Overlap(p, namespace)
    {
      forall p | p in owned ensures !Overlap(p, namespace) {
        if p <= namespace { NothingBelowStore(p, namespace); }
      }
    }

    /** A node that holds a store, on the way to a namespace, is a store overlapping it. */
    lemma StoreOnTheWay(here: Path, namespace: Path)
      requires Stores() && here in nodes && here <= namespace && nodes[here].storeIndex.Some?
      ensures here in owned && Overlap(here, namespace) && owned[here] == nodes[here].storeIndex.value
    {
    }

    /** The loop of `insert`: walks along a namespace, adding nodes, and stops at a store on the way. */
    method Walk(namespace: Path) returns (node: Node, clash: Option<nat>, ghost grown: bool)
      requires Valid() && namespace != []
      modifies this, repr
      ensures Pending(namespace) && fresh(repr - old(repr)) && owned == old(owned)
      ensures !grown ==> Valid() && unchanged(this) && unchanged(old(repr))
      ensures clash.Some? ==> !grown && exists p :: p in owned && Overlap(p, namespace) && owned[p] == clash.value
      ensures clash == None ==> namespace in nodes && nodes[namespace] == node
      ensures clash == None && grown ==> forall q | q in owned :: !(namespace <= q)
    {
      node := root;
      clash := None;
      grown := false;
      var k := 0;
      while k < |namespace|
        invariant 0 <= k <= |namespace|
        invariant Pending(namespace) && fresh(repr - old(repr)) && owned == old(owned)
        invariant namespace[..k] in nodes && nodes[namespace[..k]] == node
        invariant !grown ==> Valid() && unchanged(this) && unchanged(old(repr))
        invariant grown ==> fresh(node) && node.children == map[]
        invariant grown ==> forall q | q in owned :: !(namespace[..k] <= q)
      {
        ghost var here := namespace[..k];
        assert namespace[..k + 1] == here + [namespace[k]];
        if node.storeIndex.Some? {
          StoreOnTheWay(here, namespace);
          clash := node.storeIndex;
          return;
        }
        ghost var created;
        node, created := Enter(node, here, namespace[k], namespace);
        grown := grown || created;
        k := k + 1;
      }
      assert namespace[..k] == namespace;
    }

    /** Adds a namespace, or reports a store whose namespace overlaps it and leaves the trie alone. */
    method Insert(namespace: Path, storeIndex: nat) returns (clash: Option<nat>)
      requires Valid() && namespace != []
      modifies this, repr
      ensures Valid() && fresh(repr - old(repr))
      ensures clash == None <==> forall p | p in old(owned) :: !Overlap(p, namespace)
      ensures clash == None ==> owned == old(owned)[namespace := storeIndex]
      ensures clash.Some? ==> exists p :: p in owned && Overlap(p, namespace) && owned[p] == clash.value
      ensures clash.Some? ==> unchanged(this) && unchanged(old(repr))
    {
      var node;
      ghost var grown;
      node, clash, grown := Walk(namespace);
      if clash.Some? {
        return;
      }
      if node.storeIndex.Some? {
        StoreOnTheWay(namespace, namespace);
        return node.storeIndex;
      }
      clash := FirstStoreIndex(node, namespace);
      if clash == None {
        FreeNamespaceOverlapsNothing(namespace);
        Claim(node, namespace, storeIndex);
      }
    }

    /** The store whose namespace is a prefix of the components, if there is one. */
    method Resolve(components: Path) returns (found: Option<nat>)
      requires Valid()
      ensures found == None <==> forall p | p in owned :: !(p <= components)
      ensures forall i :: found == Some(i) <==> exists p :: p in owned && p <= components && owned[p] == i
    {
      var node := root;
      var k := 0;
      while k < |components|
        invariant 0 <= k <= |components|
        invariant components[..k] in nodes && nodes[components[..k]] == node
        invariant forall p | p in owned :: !(p <= components[..k])
      {
        ghost var here := components[..k];
        assert components[..k + 1] == here + [components[k]];
        if components[k] !in node.children {
          forall p | p in owned && p <= components ensures false {
            assert here < p;
            StepTowards(here, p);
          }
          return None;
        }
        assert here + [components[k]] in nodes;
        node := node.children[components[k]];
        k := k + 1;
        assert forall p | p in owned :: p <= components[..k] ==> p <= here || p == components[..k];
        if node.storeIndex.Some? {
          OwnedPrefixUnique(components[..k], components);
          return node.storeIndex;
        }
      }
      assert components[..k] == components;
      found := None;
    }

    /** Nothing hangs below a store. */
    lemma NothingBelowStore(p: Path, q: Path)
      requires Stores() && p in owned && q in nodes && p <= q
      ensures p == q
    {
      if p != q { StepTowards(p, q); }
    }

    /** At most one inserted namespace is a prefix of a given name. */
    lemma OwnedPrefixUnique(p: Path, components: Path)
      requires Stores() && p in owned && p <= components
      ensures forall q | q in owned && q <= components :: q == p
    {
      forall q | q in owned && q <= components ensures q == p {
        if q <= p { NothingBelowStore(q, p); } else { NothingBelowStore(p, q); }
      }
    }
  }
}
