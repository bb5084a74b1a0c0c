/**
 The hash map of common/hash-map.c: an AVL tree whose keys are hash values.  The hasher is called by
 the users of the map, so a map is its tree, and its value is the set of nodes handed out.

 Two data may share a hash value; a removal then takes one of them.
 */
module HashMap {
  import opened AvlShape
  import opened AvlWalk
  import opened AvlApi

  /** No other node of `nodes` has the key of `n`. */
  ghost predicate Alone(nodes: set<Node>, n: Node) {
    n in nodes && forall m :: m in nodes && m.key == n.key ==> m == n
  }

  /**
   `r` is another node whose key comes next after that of `n`, with no key in between; null when none
   is larger.  When `n` is alone with its key, that of `r` is larger.
   */
  ghost predicate KeyAfter(nodes: set<Node>, n: Node, r: Node?) {
    if r == null then forall m :: m in nodes ==> m.key <= n.key
    else r in nodes && r != n && n.key <= r.key && forall m :: m in nodes ==> m.key <= n.key || r.key <= m.key
  }

  lemma NodeListed(t: Tree, n: Node)
    requires t.Valid() && n in t.nodes
    ensures n in t.contents && Present(t.contents, n.key)
  {
    InOrderNodes(t.shape);
    var i :| 0 <= i < |t.contents| && t.contents[i] == n;
  }

  lemma ListedNode(t: Tree)
    requires t.Valid()
    ensures forall n :: n in t.contents <==> n in t.nodes
  {
    InOrderNodes(t.shape);
  }

  /** What the search for a hash value meets. */
  lemma FoundNode(t: Tree, hash: int)
    requires t.Valid()
    ensures var n := Found(t.shape, hash);
      && (n != null ==> n in t.nodes && n.key == hash)
      && (n == null ==> forall m :: m in t.nodes ==> m.key != hash)
  {
    FoundIffPresent(t.shape, hash);
    FoundIsInside(t.shape, hash);
    ListedNode(t);
  }

  /** `hash_map_remove_by_hash`: one node with the hash value leaves, if there is one. */
  method RemoveByHash(t: Tree, hash: int) returns (data: object?, ghost n: Node?)
    requires t.Valid() && |t.contents| + 1 < ADDRESSABLE
    modifies t, t.nodes
    ensures t.Valid()
    ensures n == Found(old(t.shape), hash)
    ensures n == null <==> forall m :: m in old(t.nodes) ==> m.key != hash
    ensures n == null ==> data == null && t.nodes == old(t.nodes) && t.contents == old(t.contents)
    ensures n != null ==> n in old(t.nodes) && n.key == hash && data == n.data && t.nodes == old(t.nodes) - {n}
    ensures n != null ==> |t.contents| == old(|t.contents|) - 1
  {
    ghost var was := t.nodes;
    ListedNode(t);
    ghost var i;
    data, n, i := t.Remove(hash);
    assert n == null ==> forall m :: m in was ==> m.key != hash;
  }

  /** `hash_map_get_by_hash` */
  method GetByHash(t: Tree, hash: int) returns (n: Node?)
    requires t.Valid()
    ensures n != null ==> n in t.nodes && n.key == hash
    ensures n == null ==> forall m :: m in t.nodes ==> m.key != hash
    ensures n == Found(t.shape, hash)
  {
    n := t.Get(hash);
    ListedNode(t);
  }

  lemma NextKey(s: seq<Node>, nodes: set<Node>, i: nat, r: Node?)
    requires Sorted(s) && i < |s| && Successor(s, i, r) && (forall n :: n in s <==> n in nodes)
    requires r != s[i]
    ensures KeyAfter(nodes, s[i], r)
  {
    forall m | m in nodes ensures m.key <= s[i].key || (r != null && r.key <= m.key) {
      var j :| 0 <= j < |s| && s[j] == m;
    }
  }

  /** `avl_tree_next` on a handle */
  method NextNode(t: Tree, n: Node) returns (r: Node?)
    requires t.Valid() && n in t.nodes
    ensures KeyAfter(t.nodes, n, r)
  {
    NodeListed(t, n);
    ListedNode(t);
    ghost var i :| 0 <= i < |t.contents| && t.contents[i] == n;
    r := Next(n, t.shape, i);
    if r != null { InOrderDistinct(t.shape, i, i + 1); }
    NextKey(t.contents, t.nodes, i, r);
  }
}
