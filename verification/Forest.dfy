/** Connectedness of a graph of suggested pairings, and the union-find with path halving
    that `suggest_merges` decides it with. */
module Forest {
  /** Two things joined. */
  datatype Link<K> = Link(left: K, right: K)

  // ── Connectedness ─────────────────────────────────────────────────────────

  ghost predicate Adjacent<K(!new)>(edges: seq<Link<K>>, x: K, y: K)
  {
    exists e :: e in edges && ((e.left == x && e.right == y) || (e.left == y && e.right == x))
  }

  /** A walk along edges. */
  ghost predicate Walk<K(!new)>(edges: seq<Link<K>>, walk: seq<K>, x: K, y: K)
  {
    && walk != [] && walk[0] == x && walk[|walk| - 1] == y
    && forall i :: 0 <= i < |walk| - 1 ==> Adjacent(edges, walk[i], walk[i + 1])
  }

  ghost predicate Connected<K(!new)>(edges: seq<Link<K>>, x: K, y: K)
  {
    exists walk :: Walk(edges, walk, x, y)
  }

  lemma ConnectedToItself<K(!new)>(edges: seq<Link<K>>, x: K)
    ensures Connected(edges, x, x)
  {
    assert Walk(edges, [x], x, x);
  }

  lemma {:induction false} ConnectedBack<K(!new)>(edges: seq<Link<K>>, x: K, y: K)
    requires Connected(edges, x, y)
    ensures Connected(edges, y, x)
  {
    var walk :| Walk(edges, walk, x, y);
    var back := seq(|walk|, i requires 0 <= i < |walk| => walk[|walk| - 1 - i]);
    forall i | 0 <= i < |back| - 1 ensures Adjacent(edges, back[i], back[i + 1]) {
      assert Adjacent(edges, walk[|walk| - 2 - i], walk[|walk| - 2 - i + 1]);
    }
    assert Walk(edges, back, y, x);
  }

  lemma ConnectedOn<K(!new)>(edges: seq<Link<K>>, x: K, y: K, z: K)
    requires Connected(edges, x, y) && Connected(edges, y, z)
    ensures Connected(edges, x, z)
  {
    var a :| Walk(edges, a, x, y);
    var b :| Walk(edges, b, y, z);
    var walk := a + b[1..];
    forall i | 0 <= i < |walk| - 1 ensures Adjacent(edges, walk[i], walk[i + 1]) {
      if i >= |a| - 1 {
        assert walk[i] == b[i - |a| + 1] && walk[i + 1] == b[i - |a| + 2];
      }
    }
    assert Walk(edges, walk, x, z);
  }

  lemma AdjacentIsConnected<K(!new)>(edges: seq<Link<K>>, e: Link<K>)
    requires e in edges
    ensures Connected(edges, e.left, e.right)
  {
    assert Walk(edges, [e.left, e.right], e.left, e.right);
  }

  /** More edges connect no less. */
  lemma MoreEdgesConnectMore<K(!new)>(few: seq<Link<K>>, many: seq<Link<K>>, x: K, y: K)
    requires (forall e :: e in few ==> e in many) && Connected(few, x, y)
    ensures Connected(many, x, y)
  {
    var walk :| Walk(few, walk, x, y);
    assert Walk(many, walk, x, y);
  }

  /** Labels that agree along every edge agree along every walk. */
  lemma {:induction false} WalkKeepsLabel<K(!new)>(edges: seq<Link<K>>, labels: map<K, K>, walk: seq<K>, x: K, y: K)
    requires Walk(edges, walk, x, y) && x in labels
    requires forall e :: e in edges ==> e.left in labels && e.right in labels && labels[e.left] == labels[e.right]
    ensures y in labels && labels[x] == labels[y]
  {
    if |walk| > 1 {
      var init, last := walk[..|walk| - 1], |walk| - 2;
      forall i | 0 <= i < |init| - 1 ensures Adjacent(edges, init[i], init[i + 1]) {
        assert init[i] == walk[i] && init[i + 1] == walk[i + 1];
      }
      WalkKeepsLabel(edges, labels, init, x, init[|init| - 1]);
      assert Adjacent(edges, walk[last], walk[last + 1]);
    }
  }

  // ── The forest ────────────────────────────────────────────────────────────

  /** Links that follow the roots: a link keeps the root, only a root links to itself, and the
      depth falls along every other link, so that following links ends. */
  ghost predicate Rooted<K(!new)>(parent: map<K, K>, root: map<K, K>, depth: map<K, nat>)
  {
    && parent.Keys == root.Keys == depth.Keys
    && forall k {:trigger Linked(parent, root, depth, k)} :: k in parent ==> Linked(parent, root, depth, k)
  }

  ghost predicate Linked<K>(parent: map<K, K>, root: map<K, K>, depth: map<K, nat>, k: K)
  {
    && k in parent && k in root && k in depth
    && var next, top := parent[k], root[k];
    && next in root && next in depth && top in root
    && root[next] == top && root[top] == top
    && (next == k <==> top == k)
    && (next != k ==> depth[next] < depth[k])
  }

  lemma HalvingStaysRooted<K(!new)>(parent: map<K, K>, root: map<K, K>, depth: map<K, nat>, k: K)
    requires Rooted(parent, root, depth) && k in parent && parent[k] != k
    ensures parent[k] in parent && parent[parent[k]] in parent
    ensures Rooted(parent[k := parent[parent[k]]], root, depth)
    ensures depth[parent[parent[k]]] < depth[k] && root[parent[parent[k]]] == root[k]
  {
    assert Linked(parent, root, depth, k);
    assert Linked(parent, root, depth, parent[k]);
    var half := parent[parent[k]];
    assert Linked(parent, root, depth, half);
    var after := parent[k := half];
    assert after.Keys == parent.Keys;
    forall j | j in after ensures Linked(after, root, depth, j) {
      assert Linked(parent, root, depth, j);
    }
  }

  function Moved<K(==)>(root: map<K, K>, a: K, b: K): map<K, K>
  {
    map k | k in root :: if root[k] == b then a else root[k]
  }

  ghost function Deepened<K>(root: map<K, K>, depth: map<K, nat>, b: K, more: nat): map<K, nat>
    requires root.Keys == depth.Keys
  {
    map k | k in root :: if root[k] == b then depth[k] + more else depth[k]
  }

  lemma HangingStaysRooted<K(!new)>(parent: map<K, K>, root: map<K, K>, depth: map<K, nat>, a: K, b: K)
    requires Rooted(parent, root, depth) && a in parent && b in parent && root[a] == a && root[b] == b && a != b
    ensures Rooted(parent[b := a], Moved(root, a, b), Deepened(root, depth, b, depth[a] + 1))
  {
    var after, roots, depths := parent[b := a], Moved(root, a, b), Deepened(root, depth, b, depth[a] + 1);
    assert after.Keys == parent.Keys && roots.Keys == root.Keys && depths.Keys == depth.Keys;
    assert Linked(parent, root, depth, a) && Linked(parent, root, depth, b);
    forall j | j in after ensures Linked(after, roots, depths, j) {
      assert Linked(parent, root, depth, j);
    }
  }

  /** The `parent` dictionary. The ghost state says what it stands for: each key's root. */
  class Parents<K(==,!new)> {
    var parent: map<K, K>
    ghost var root: map<K, K>
    ghost var depth: map<K, nat>

    ghost predicate Valid()
      reads this
    {
      Rooted(parent, root, depth)
    }

    /** `{key: key for key in by_key}`. */
    constructor (keys: set<K>)
      ensures Valid() && parent.Keys == keys
      ensures root == map k | k in keys :: k
    {
      parent := map k | k in keys :: k;
      root := map k | k in keys :: k;
      depth := map k | k in keys :: 0;
    }

    /** The root of a key, halving the path on the way. It ends, it moves nobody to another
        root, and only links change. */
    method Find(key: K) returns (top: K)
      requires Valid() && key in parent
      modifies this`parent
      ensures Valid() && parent.Keys == old(parent.Keys)
      ensures top == root[key]
    {
      top := key;
      assert Linked(parent, root, depth, top);
      while parent[top] != top
        invariant Valid() && parent.Keys == old(parent.Keys) && top in parent
        invariant root[top] == root[key]
        decreases depth[top]
      {
        HalvingStaysRooted(parent, root, depth, top);
        parent := parent[top := parent[parent[top]]];
        top := parent[top];
      }
      assert Linked(parent, root, depth, top);
    }

    /** Hang the tree under `b` below the root `a`. */
    method Hang(a: K, b: K)
      requires Valid() && a in parent && b in parent && root[a] == a && root[b] == b && a != b
      modifies this
      ensures Valid() && parent.Keys == old(parent.Keys)
      ensures root == Moved(old(root), a, b)
    {
      HangingStaysRooted(parent, root, depth, a, b);
      parent := parent[b := a];
      depth := Deepened(root, depth, b, depth[a] + 1);
      root := Moved(root, a, b);
    }

    /** One edge: find both roots, and hang one below the other where they differ. */
    method Join(e: Link<K>)
      requires Valid() && e.left in parent && e.right in parent
      modifies this
      ensures Valid() && parent.Keys == old(parent.Keys)
      ensures e.left in old(root) && e.right in old(root) && root == Moved(old(root), old(root)[e.left], old(root)[e.right])
    {
      assert Linked(parent, root, depth, e.left) && Linked(parent, root, depth, e.right);
      var a := Find(e.left);
      var b := Find(e.right);
      if a != b {
        Hang(a, b);
      } else {
        assert Moved(root, a, b) == root;
      }
    }
  }

  /** Roots that stand for the components of a graph: a key's root is connected to it, and an
      edge joins keys of one root. */
  ghost predicate Stands<K(!new)>(edges: seq<Link<K>>, root: map<K, K>)
  {
    && (forall k :: k in root ==> Connected(edges, k, root[k]))
    && (forall e :: e in edges ==> e.left in root && e.right in root && root[e.left] == root[e.right])
  }

  /** Two keys have one root exactly where they are connected. */
  lemma SameRootIffConnected<K(!new)>(edges: seq<Link<K>>, root: map<K, K>, x: K, y: K)
    requires Stands(edges, root) && x in root && y in root
    ensures root[x] == root[y] <==> Connected(edges, x, y)
  {
    if root[x] == root[y] {
      ConnectedBack(edges, y, root[y]);
      ConnectedOn(edges, x, root[x], y);
    }
    if Connected(edges, x, y) {
      var walk :| Walk(edges, walk, x, y);
      WalkKeepsLabel(edges, root, walk, x, y);
    }
  }

  lemma StandsOneMore<K(!new)>(edges: seq<Link<K>>, root: map<K, K>, e: Link<K>, after: map<K, K>)
    requires Stands(edges, root) && e.left in root && e.right in root
    requires after == Moved(root, root[e.left], root[e.right])
    ensures Stands(edges + [e], after)
  {
    var more := edges + [e];
    assert e in more;
    AdjacentIsConnected(more, e);
    forall k | k in after ensures Connected(more, k, after[k]) {
      MoreEdgesConnectMore(edges, more, k, root[k]);
      if root[k] == root[e.right] {
        // k to its root, back out to the right end, over the edge, to the left end's root.
        MoreEdgesConnectMore(edges, more, e.right, root[e.right]);
        MoreEdgesConnectMore(edges, more, e.left, root[e.left]);
        ConnectedBack(more, e.right, root[e.right]);
        ConnectedBack(more, e.left, e.right);
        ConnectedOn(more, k, root[k], e.right);
        ConnectedOn(more, k, e.right, e.left);
        ConnectedOn(more, k, e.left, root[e.left]);
      }
    }
  }

  lemma NothingJoinedYet<K(!new)>(keys: set<K>)
    ensures Stands([], map k | k in keys :: k)
  {
    forall k | k in keys ensures Connected([], k, k) {
      ConnectedToItself([], k);
    }
  }

  /** The union loop: afterwards the roots stand for the graph's components. */
  method JoinAll<K(==,!new)>(keys: set<K>, edges: seq<Link<K>>) returns (forest: Parents<K>)
    requires forall e :: e in edges ==> e.left in keys && e.right in keys
    ensures fresh(forest) && forest.Valid() && forest.parent.Keys == keys
    ensures Stands(edges, forest.root)
  {
    forest := new Parents<K>(keys);
    NothingJoinedYet(keys);
    assert edges[..0] == [];
    for i := 0 to |edges|
      invariant forest.Valid() && forest.parent.Keys == keys
      invariant Stands(edges[..i], forest.root)
    {
      assert edges[i] in edges;
      ghost var was := forest.root;
      forest.Join(edges[i]);
      StandsOneMore(edges[..i], was, edges[i], forest.root);
      assert edges[..i + 1] == edges[..i] + [edges[i]];
    }
    assert edges[..|edges|] == edges;
  }
}
