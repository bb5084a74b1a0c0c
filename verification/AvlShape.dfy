/**
 The node of common/avl-tree.h and the shape of a tree of such nodes, as a value.

 A `Shape` is a ghost picture of the tree that hangs below a node: it says which node is where,
 and nothing about the contents of the heap.  The rebalancing, insertion and removal of
 common/avl-tree.c are given here as functions on shapes, and what they promise (order, balance,
 height) is proved of those functions.  `AvlTree` proves that the pointer code computes them.
 */
module AvlShape {

  /** `struct avl_tree_node`.  `key` and `data` are written once, in `node_init`. */
  class Node {
    var left: Node?
    var right: Node?
    var parent: Node?
    var height: int
    const key: int
    const data: object?

    /** `node_init` */
    constructor (key: int, data: object?)
      ensures this.key == key && this.data == data
      ensures left == null && right == null && parent == null && height == 1
    {
      this.key, this.data := key, data;
      left, right, parent := null, null, null;
      height := 1;
    }
  }

  datatype Shape = Leaf | Branch(left: Shape, node: Node, right: Shape)

  // ---------- what a shape holds ----------

  ghost function Root(t: Shape): Node? {
    if t.Leaf? then null else t.node
  }

  ghost function InOrder(t: Shape): seq<Node> {
    if t.Leaf? then [] else InOrder(t.left) + [t.node] + InOrder(t.right)
  }

  ghost function Nodes(t: Shape): (r: set<Node>)
    ensures t.Branch? ==> t.node in r
  {
    if t.Leaf? then {} else Nodes(t.left) + {t.node} + Nodes(t.right)
  }

  /** No node occurs twice. */
  ghost predicate Proper(t: Shape) {
    t.Branch? ==>
      && t.node !in Nodes(t.left) && t.node !in Nodes(t.right) && Nodes(t.left) !! Nodes(t.right)
      && Proper(t.left) && Proper(t.right)
  }

  ghost function Larger(a: int, b: int): int { if a > b then a else b }

  ghost function Height(t: Shape): nat {
    if t.Leaf? then 0 else 1 + Larger(Height(t.left), Height(t.right))
  }

  ghost function Factor(t: Shape): int
    requires t.Branch?
  {
    Height(t.right) - Height(t.left)
  }

  ghost predicate Balanced(t: Shape) {
    t.Branch? ==> -1 <= Factor(t) <= 1 && Balanced(t.left) && Balanced(t.right)
  }

  ghost predicate Sorted(s: seq<Node>) {
    forall i, j :: 0 <= i < j < |s| ==> s[i].key <= s[j].key
  }

  // ---------- rotations and rebalancing ----------

  ghost function RotatedRight(t: Shape): Shape
    requires t.Branch? && t.left.Branch?
  {
    Branch(t.left.left, t.left.node, Branch(t.left.right, t.node, t.right))
  }

  ghost function RotatedLeft(t: Shape): Shape
    requires t.Branch? && t.right.Branch?
  {
    Branch(Branch(t.left, t.node, t.right.left), t.right.node, t.right.right)
  }

  /** `tree_balance`: anything but a difference of exactly two is left alone. */
  ghost function Rebalanced(t: Shape): Shape
    requires t.Branch?
  {
    if Factor(t) == 2 then
      if Factor(t.right) < 0 then RotatedLeft(Branch(t.left, t.node, RotatedRight(t.right)))
      else RotatedLeft(t)
    else if Factor(t) == -2 then
      if Factor(t.left) > 0 then RotatedRight(Branch(RotatedLeft(t.left), t.node, t.right))
      else RotatedRight(t)
    else t
  }

  lemma {:induction false} RotatedRightKeepsOrder(t: Shape)
    requires t.Branch? && t.left.Branch?
    ensures InOrder(RotatedRight(t)) == InOrder(t)
  {
    var a, p, b, q, c := InOrder(t.left.left), [t.left.node], InOrder(t.left.right), [t.node], InOrder(t.right);
    assert InOrder(RotatedRight(t)) == a + p + (b + q + c) == (a + p + b) + q + c;
  }

  lemma {:induction false} RotatedLeftKeepsOrder(t: Shape)
    requires t.Branch? && t.right.Branch?
    ensures InOrder(RotatedLeft(t)) == InOrder(t)
  {
    var a, p, b, q, c := InOrder(t.left), [t.node], InOrder(t.right.left), [t.right.node], InOrder(t.right.right);
    assert InOrder(RotatedLeft(t)) == (a + p + b) + q + c == a + p + (b + q + c);
  }

  lemma {:induction false} RotatedRightIsProper(t: Shape)
    requires t.Branch? && t.left.Branch? && Proper(t)
    ensures Proper(RotatedRight(t)) && Nodes(RotatedRight(t)) == Nodes(t)
  {
    assert Proper(t.left);
    assert Proper(RotatedRight(t).right);
  }

  lemma {:induction false} RotatedLeftIsProper(t: Shape)
    requires t.Branch? && t.right.Branch? && Proper(t)
    ensures Proper(RotatedLeft(t)) && Nodes(RotatedLeft(t)) == Nodes(t)
  {
    assert Proper(t.right);
    assert Proper(RotatedLeft(t).left);
  }

  lemma {:induction false} RebalancedKeepsOrder(t: Shape)
    requires t.Branch?
    ensures InOrder(Rebalanced(t)) == InOrder(t)
  {
    if Factor(t) == 2 {
      if Factor(t.right) < 0 {
        RotatedRightKeepsOrder(t.right);
        RotatedLeftKeepsOrder(Branch(t.left, t.node, RotatedRight(t.right)));
      } else {
        RotatedLeftKeepsOrder(t);
      }
    } else if Factor(t) == -2 {
      if Factor(t.left) > 0 {
        RotatedLeftKeepsOrder(t.left);
        RotatedRightKeepsOrder(Branch(RotatedLeft(t.left), t.node, t.right));
      } else {
        RotatedRightKeepsOrder(t);
      }
    }
  }

  lemma {:induction false} RebalancedIsProper(t: Shape)
    requires t.Branch? && Proper(t)
    ensures Rebalanced(t).Branch? && Proper(Rebalanced(t)) && Nodes(Rebalanced(t)) == Nodes(t)
  {
    if Factor(t) == 2 {
      if Factor(t.right) < 0 {
        RotatedRightIsProper(t.right);
        RotatedLeftIsProper(Branch(t.left, t.node, RotatedRight(t.right)));
      } else {
        RotatedLeftIsProper(t);
      }
    } else if Factor(t) == -2 {
      if Factor(t.left) > 0 {
        RotatedLeftIsProper(t.left);
        RotatedRightIsProper(Branch(RotatedLeft(t.left), t.node, t.right));
      } else {
        RotatedRightIsProper(t);
      }
    }
  }

  /** A right subtree two levels higher: one or two rotations repair it. */
  lemma {:induction false} RightHeavyRepaired(t: Shape)
    requires t.Branch? && Factor(t) == 2
    requires Balanced(t.left) && Balanced(t.right)
    ensures Balanced(Rebalanced(t))
    ensures Height(t) - 1 <= Height(Rebalanced(t)) <= Height(t)
  {
    var r := t.right;
    if Factor(r) < 0 {
      var m := r.left;
      assert Rebalanced(t) == Branch(Branch(t.left, t.node, m.left), m.node, Branch(m.right, r.node, r.right));
    }
  }

  lemma {:induction false} LeftHeavyRepaired(t: Shape)
    requires t.Branch? && Factor(t) == -2
    requires Balanced(t.left) && Balanced(t.right)
    ensures Balanced(Rebalanced(t))
    ensures Height(t) - 1 <= Height(Rebalanced(t)) <= Height(t)
  {
    var l := t.left;
    if Factor(l) > 0 {
      var m := l.right;
      assert Rebalanced(t) == Branch(Branch(l.left, l.node, m.left), m.node, Branch(m.right, t.node, t.right));
    }
  }

  /** Rebalancing repairs a difference of two and costs at most one level. */
  lemma {:induction false} RebalancedIsBalanced(t: Shape)
    requires t.Branch? && -2 <= Factor(t) <= 2
    requires Balanced(t.left) && Balanced(t.right)
    ensures Balanced(Rebalanced(t))
    ensures Height(t) - 1 <= Height(Rebalanced(t)) <= Height(t)
    ensures -1 <= Factor(t) <= 1 ==> Rebalanced(t) == t
  {
    if Factor(t) == 2 {
      RightHeavyRepaired(t);
    } else if Factor(t) == -2 {
      LeftHeavyRepaired(t);
    }
  }

  // ---------- insertion ----------

  /** `tree_insert`: a smaller key goes left, an equal or larger one goes right. */
  ghost function Inserted(t: Shape, n: Node): Shape {
    if t.Leaf? then Branch(Leaf, n, Leaf)
    else if n.key < t.node.key then Rebalanced(Branch(Inserted(t.left, n), t.node, t.right))
    else Rebalanced(Branch(t.left, t.node, Inserted(t.right, n)))
  }

  lemma {:induction false} InsertedNodes(t: Shape, n: Node)
    requires Proper(t) && n !in Nodes(t)
    ensures Inserted(t, n).Branch? && Nodes(Inserted(t, n)) == Nodes(t) + {n}
    ensures Proper(Inserted(t, n))
  {
    if t.Branch? {
      var u := if n.key < t.node.key then Branch(Inserted(t.left, n), t.node, t.right)
               else Branch(t.left, t.node, Inserted(t.right, n));
      if n.key < t.node.key { InsertedNodes(t.left, n); } else { InsertedNodes(t.right, n); }
      RebalancedIsProper(u);
    }
  }

  /** Insertion keeps the tree balanced and adds at most one level. */
  lemma {:induction false} InsertedIsBalanced(t: Shape, n: Node)
    requires Balanced(t)
    ensures Balanced(Inserted(t, n))
    ensures Height(t) <= Height(Inserted(t, n)) <= Height(t) + 1
  {
    if t.Branch? {
      if n.key < t.node.key {
        InsertedIsBalanced(t.left, n);
        RebalancedIsBalanced(Branch(Inserted(t.left, n), t.node, t.right));
      } else {
        InsertedIsBalanced(t.right, n);
        RebalancedIsBalanced(Branch(t.left, t.node, Inserted(t.right, n)));
      }
    }
  }

  /** `s` with `n` put after every key that is not larger. */
  ghost predicate StableInsertAt(s: seq<Node>, n: Node, k: nat, s': seq<Node>) {
    && k <= |s|
    && s' == s[..k] + [n] + s[k..]
    && (forall i :: 0 <= i < k ==> s[i].key <= n.key)
    && (forall i :: k <= i < |s| ==> n.key < s[i].key)
  }

  lemma SortedParts(a: seq<Node>, x: Node, b: seq<Node>)
    requires Sorted(a + [x] + b)
    ensures Sorted(a) && Sorted(b)
    ensures forall i :: 0 <= i < |a| ==> a[i].key <= x.key
    ensures forall i :: 0 <= i < |b| ==> x.key <= b[i].key
  {
    var s := a + [x] + b;
    assert s[|a|] == x;
    forall i | 0 <= i < |a| ensures a[i].key <= x.key { assert s[i] == a[i]; }
    forall i | 0 <= i < |b| ensures x.key <= b[i].key { assert s[|a| + 1 + i] == b[i]; }
    forall i, j | 0 <= i < j < |a| ensures a[i].key <= a[j].key { assert s[i] == a[i] && s[j] == a[j]; }
    forall i, j | 0 <= i < j < |b| ensures b[i].key <= b[j].key {
      assert s[|a| + 1 + i] == b[i] && s[|a| + 1 + j] == b[j];
    }
  }

  lemma StableInsertLeft(a: seq<Node>, x: Node, b: seq<Node>, n: Node, k: nat, a': seq<Node>)
    requires StableInsertAt(a, n, k, a') && n.key < x.key
    requires forall i :: 0 <= i < |b| ==> x.key <= b[i].key
    ensures StableInsertAt(a + [x] + b, n, k, a' + [x] + b)
  {
    var s := a + [x] + b;
    assert s[..k] == a[..k] && s[k..] == a[k..] + [x] + b;
  }

  lemma StableInsertRight(a: seq<Node>, x: Node, b: seq<Node>, n: Node, k: nat, b': seq<Node>)
    requires StableInsertAt(b, n, k, b') && x.key <= n.key
    requires forall i :: 0 <= i < |a| ==> a[i].key <= x.key
    ensures StableInsertAt(a + [x] + b, n, |a| + 1 + k, a + [x] + b')
  {
    var s := a + [x] + b;
    var m := |a| + 1 + k;
    assert s[..m] == a + [x] + b[..k] && s[m..] == b[k..];
    assert forall i :: |a| < i < |s| ==> s[i] == b[i - |a| - 1];
  }

  /** Insertion is the stable sorted insertion, whatever rotations did with equal keys before. */
  lemma {:induction false} InsertedInOrder(t: Shape, n: Node) returns (k: nat)
    requires Sorted(InOrder(t))
    ensures StableInsertAt(InOrder(t), n, k, InOrder(Inserted(t, n)))
  {
    if t.Leaf? {
      k := 0;
      assert InOrder(Inserted(t, n)) == [n];
    } else {
      var a, b := InOrder(t.left), InOrder(t.right);
      SortedParts(a, t.node, b);
      if n.key < t.node.key {
        k := InsertedInOrder(t.left, n);
        RebalancedKeepsOrder(Branch(Inserted(t.left, n), t.node, t.right));
        StableInsertLeft(a, t.node, b, n, k, InOrder(Inserted(t.left, n)));
      } else {
        k := InsertedInOrder(t.right, n);
        RebalancedKeepsOrder(Branch(t.left, t.node, Inserted(t.right, n)));
        StableInsertRight(a, t.node, b, n, k, InOrder(Inserted(t.right, n)));
        k := |a| + 1 + k;
      }
    }
  }

  lemma StableInsertSorted(s: seq<Node>, n: Node, k: nat, s': seq<Node>)
    requires Sorted(s) && StableInsertAt(s, n, k, s')
    ensures Sorted(s')
  {
    assert forall i :: 0 <= i < |s'| ==> s'[i] == if i < k then s[i] else if i == k then n else s[i - 1];
  }

  // ---------- removal ----------

  ghost function MinNode(t: Shape): Node
    requires t.Branch?
  {
    if t.left.Leaf? then t.node else MinNode(t.left)
  }

  /** `tree_remove_minimum_node` */
  ghost function RemovedMin(t: Shape): Shape
    requires t.Branch?
  {
    if t.left.Leaf? then t.right else Rebalanced(Branch(RemovedMin(t.left), t.node, t.right))
  }

  /** `tree_remove_node`: the successor is moved into the place of the deleted node. */
  ghost function Removed(t: Shape, key: int): Shape {
    if t.Leaf? then Leaf
    else if key < t.node.key then Rebalanced(Branch(Removed(t.left, key), t.node, t.right))
    else if key > t.node.key then Rebalanced(Branch(t.left, t.node, Removed(t.right, key)))
    else if t.right.Leaf? then t.left
    else Rebalanced(Branch(t.left, MinNode(t.right), RemovedMin(t.right)))
  }

  /** `tree_find` */
  ghost function Found(t: Shape, key: int): Node? {
    if t.Leaf? then null
    else if key < t.node.key then Found(t.left, key)
    else if key > t.node.key then Found(t.right, key)
    else t.node
  }

  lemma {:induction false} RemovedMinInOrder(t: Shape)
    requires t.Branch?
    ensures InOrder(t) == [MinNode(t)] + InOrder(RemovedMin(t))
  {
    if t.left.Branch? {
      RemovedMinInOrder(t.left);
      RebalancedKeepsOrder(Branch(RemovedMin(t.left), t.node, t.right));
      var m, a, x, b := [MinNode(t)], InOrder(RemovedMin(t.left)), [t.node], InOrder(t.right);
      assert InOrder(t) == (m + a) + x + b == m + (a + x + b);
    }
  }

  lemma {:induction false} RemovedMinNodes(t: Shape)
    requires t.Branch? && Proper(t)
    ensures MinNode(t) !in Nodes(RemovedMin(t))
    ensures Nodes(t) == Nodes(RemovedMin(t)) + {MinNode(t)}
    ensures Proper(RemovedMin(t))
  {
    if t.left.Branch? {
      RemovedMinNodes(t.left);
      var u := Branch(RemovedMin(t.left), t.node, t.right);
      RebalancedIsProper(u);
    }
  }

  lemma {:induction false} RemovedMinIsBalanced(t: Shape)
    requires t.Branch? && Balanced(t)
    ensures Balanced(RemovedMin(t))
    ensures Height(t) - 1 <= Height(RemovedMin(t)) <= Height(t)
  {
    if t.left.Branch? {
      RemovedMinIsBalanced(t.left);
      RebalancedIsBalanced(Branch(RemovedMin(t.left), t.node, t.right));
    }
  }

  lemma {:induction false} SplicedIsBalanced(t: Shape)
    requires t.Branch? && t.right.Branch? && Balanced(t)
    ensures Balanced(Removed(t, t.node.key))
    ensures Height(t) - 1 <= Height(Removed(t, t.node.key)) <= Height(t)
  {
    RemovedMinIsBalanced(t.right);
    RebalancedIsBalanced(Branch(t.left, MinNode(t.right), RemovedMin(t.right)));
  }

  /** Removal keeps the tree balanced and takes away at most one level. */
  lemma {:induction false} RemovedIsBalanced(t: Shape, key: int)
    requires Balanced(t)
    ensures Balanced(Removed(t, key))
    ensures Height(t) - 1 <= Height(Removed(t, key)) <= Height(t)
  {
    if t.Branch? {
      if key < t.node.key {
        RemovedIsBalanced(t.left, key);
        RebalancedIsBalanced(Branch(Removed(t.left, key), t.node, t.right));
      } else if key > t.node.key {
        RemovedIsBalanced(t.right, key);
        RebalancedIsBalanced(Branch(t.left, t.node, Removed(t.right, key)));
      } else if t.right.Branch? {
        SplicedIsBalanced(t);
      }
    }
  }

  /** Exactly the node that `tree_find` finds leaves the tree. */
  lemma {:induction false} RemovedNodes(t: Shape, key: int)
    requires Proper(t)
    ensures Nodes(Removed(t, key)) == Nodes(t) - {Found(t, key)}
    ensures Proper(Removed(t, key))
  {
    if t.Branch? {
      if key < t.node.key {
        RemovedNodes(t.left, key);
        FoundIsInside(t.left, key);
        var u := Branch(Removed(t.left, key), t.node, t.right);
        RebalancedIsProper(u);
      } else if key > t.node.key {
        RemovedNodes(t.right, key);
        FoundIsInside(t.right, key);
        var u := Branch(t.left, t.node, Removed(t.right, key));
        RebalancedIsProper(u);
      } else if t.right.Branch? {
        RemovedMinNodes(t.right);
        var u := Branch(t.left, MinNode(t.right), RemovedMin(t.right));
        RebalancedIsProper(u);
      }
    }
  }

  lemma {:induction false} FoundIsInside(t: Shape, key: int)
    ensures Found(t, key) != null ==> Found(t, key) in Nodes(t) && Found(t, key).key == key
  {
    if t.Branch? {
      FoundIsInside(t.left, key);
      FoundIsInside(t.right, key);
    }
  }

  ghost predicate Present(s: seq<Node>, key: int) {
    exists i :: 0 <= i < |s| && s[i].key == key
  }

  /** `s'` is `s` without the one node at `i`, whose key is `key`. */
  ghost predicate DeletedAt(s: seq<Node>, key: int, i: nat, s': seq<Node>) {
    i < |s| && s[i].key == key && s' == s[..i] + s[i + 1..]
  }

  lemma {:induction false} RemovedAbsent(t: Shape, key: int)
    requires Balanced(t) && !Present(InOrder(t), key)
    ensures Removed(t, key) == t
  {
    if t.Branch? {
      var s, a := InOrder(t), InOrder(t.left);
      assert s[|a|] == t.node;
      if key < t.node.key {
        assert forall i :: 0 <= i < |a| ==> s[i] == a[i];
        RemovedAbsent(t.left, key);
      } else {
        var b := InOrder(t.right);
        assert forall i :: 0 <= i < |b| ==> s[|a| + 1 + i] == b[i];
        RemovedAbsent(t.right, key);
      }
      RebalancedIsBalanced(t);
    }
  }

  lemma DeletedInLeft(a: seq<Node>, x: Node, b: seq<Node>, key: int, i: nat, a': seq<Node>)
    requires DeletedAt(a, key, i, a')
    ensures DeletedAt(a + [x] + b, key, i, a' + [x] + b)
  {
    var s := a + [x] + b;
    assert s[..i] == a[..i] && s[i + 1..] == a[i + 1..] + [x] + b;
  }

  lemma DeletedInRight(a: seq<Node>, x: Node, b: seq<Node>, key: int, i: nat, b': seq<Node>)
    requires DeletedAt(b, key, i, b')
    ensures DeletedAt(a + [x] + b, key, |a| + 1 + i, a + [x] + b')
  {
    var s := a + [x] + b;
    var m := |a| + 1 + i;
    assert s[..m] == a + [x] + b[..i] && s[m + 1..] == b[i + 1..];
  }

  lemma PresentParts(a: seq<Node>, x: Node, b: seq<Node>, key: int)
    requires Sorted(a + [x] + b) && Present(a + [x] + b, key)
    ensures key < x.key ==> Present(a, key)
    ensures key > x.key ==> Present(b, key)
  {
    SortedParts(a, x, b);
    var s := a + [x] + b;
    var i :| 0 <= i < |s| && s[i].key == key;
    if i < |a| {
      assert a[i].key == key;
    } else if i > |a| {
      assert b[i - |a| - 1].key == key;
    }
  }

  /** Moving the successor up puts the two subtrees next to each other. */
  lemma {:induction false} SplicedInOrder(t: Shape)
    requires t.Branch?
    ensures InOrder(Removed(t, t.node.key)) == InOrder(t.left) + InOrder(t.right)
  {
    if t.right.Branch? {
      RemovedMinInOrder(t.right);
      RebalancedKeepsOrder(Branch(t.left, MinNode(t.right), RemovedMin(t.right)));
    }
  }

  lemma {:induction false} RemovedFromLeft(t: Shape, key: int, i: nat)
    requires t.Branch? && key < t.node.key && DeletedAt(InOrder(t.left), key, i, InOrder(Removed(t.left, key)))
    requires Found(t.left, key) == InOrder(t.left)[i]
    ensures DeletedAt(InOrder(t), key, i, InOrder(Removed(t, key))) && Found(t, key) == InOrder(t)[i]
  {
    RebalancedKeepsOrder(Branch(Removed(t.left, key), t.node, t.right));
    DeletedInLeft(InOrder(t.left), t.node, InOrder(t.right), key, i, InOrder(Removed(t.left, key)));
  }

  lemma {:induction false} RemovedFromRight(t: Shape, key: int, i: nat)
    requires t.Branch? && key > t.node.key && DeletedAt(InOrder(t.right), key, i, InOrder(Removed(t.right, key)))
    requires Found(t.right, key) == InOrder(t.right)[i]
    ensures var j := |InOrder(t.left)| + 1 + i;
      DeletedAt(InOrder(t), key, j, InOrder(Removed(t, key))) && Found(t, key) == InOrder(t)[j]
  {
    RebalancedKeepsOrder(Branch(t.left, t.node, Removed(t.right, key)));
    DeletedInRight(InOrder(t.left), t.node, InOrder(t.right), key, i, InOrder(Removed(t.right, key)));
  }

  lemma {:induction false} RemovedAtRoot(t: Shape)
    requires t.Branch?
    ensures var s, i := InOrder(t), |InOrder(t.left)|;
      DeletedAt(s, t.node.key, i, InOrder(Removed(t, t.node.key))) && Found(t, t.node.key) == s[i]
  {
    SplicedInOrder(t);
    var a, b := InOrder(t.left), InOrder(t.right);
    assert (a + [t.node] + b)[..|a|] == a && (a + [t.node] + b)[|a| + 1..] == b;
  }

  /** A key that is there is at the root or on the side where the search goes on. */
  lemma {:induction false} SearchGoesOn(t: Shape, key: int)
    requires Sorted(InOrder(t)) && Present(InOrder(t), key)
    ensures t.Branch?
    ensures key < t.node.key ==> Sorted(InOrder(t.left)) && Present(InOrder(t.left), key)
    ensures key > t.node.key ==> Sorted(InOrder(t.right)) && Present(InOrder(t.right), key)
  {
    SortedParts(InOrder(t.left), t.node, InOrder(t.right));
    PresentParts(InOrder(t.left), t.node, InOrder(t.right), key);
  }

  /** Removal of a key that is there takes out exactly one node with that key. */
  lemma {:induction false} RemovedInOrder(t: Shape, key: int) returns (i: nat)
    requires Sorted(InOrder(t)) && Present(InOrder(t), key)
    ensures DeletedAt(InOrder(t), key, i, InOrder(Removed(t, key)))
    ensures Found(t, key) == InOrder(t)[i]
  {
    SearchGoesOn(t, key);
    if key < t.node.key {
      i := RemovedInOrder(t.left, key);
      RemovedFromLeft(t, key, i);
    } else if key > t.node.key {
      i := RemovedInOrder(t.right, key);
      RemovedFromRight(t, key, i);
      i := |InOrder(t.left)| + 1 + i;
    } else {
      RemovedAtRoot(t);
      i := |InOrder(t.left)|;
    }
  }

  /** Of two nodes with one key the search meets the one that was inserted first, whichever is meant. */
  lemma FirstOfTwoIsFound(a: Node, b: Node)
    requires a != b && a.key == b.key
    ensures Found(Inserted(Inserted(Leaf, a), b), b.key) == a
  {
  }

  /** The search succeeds exactly for the keys that are there. */
  lemma {:induction false} FoundIffPresent(t: Shape, key: int)
    requires Sorted(InOrder(t))
    ensures Found(t, key) != null <==> Present(InOrder(t), key)
    ensures Found(t, key) != null ==> Found(t, key) in InOrder(t) && Found(t, key).key == key
  {
    if Present(InOrder(t), key) {
      var i := RemovedInOrder(t, key);
    } else if Found(t, key) != null {
      FoundIsInside(t, key);
      InOrderNodes(t);
    }
  }

  lemma {:induction false} InOrderNodes(t: Shape)
    ensures forall n :: n in Nodes(t) <==> n in InOrder(t)
  {
    if t.Branch? {
      InOrderNodes(t.left);
      InOrderNodes(t.right);
    }
  }

  lemma {:induction false} PlacedIn(t: Shape, i: nat)
    requires i < |InOrder(t)|
    ensures InOrder(t)[i] in Nodes(t)
  {
    var k := |InOrder(t.left)|;
    if i < k {
      PlacedIn(t.left, i);
    } else if i > k {
      PlacedIn(t.right, i - k - 1);
    }
  }

  /** No handle occurs twice in the order. */
  lemma {:induction false} InOrderDistinct(t: Shape, i: nat, j: nat)
    requires Proper(t) && i < j < |InOrder(t)|
    ensures InOrder(t)[i] != InOrder(t)[j]
  {
    var a := InOrder(t.left);
    if j < |a| {
      InOrderDistinct(t.left, i, j);
    } else if i > |a| {
      InOrderDistinct(t.right, i - |a| - 1, j - |a| - 1);
    } else {
      if i < |a| { PlacedIn(t.left, i); }
      if j > |a| { PlacedIn(t.right, j - |a| - 1); }
    }
  }

  /** All that a removal from a balanced, sorted tree keeps and does, the key being there or not. */
  lemma {:induction false} RemovedSummary(t: Shape, key: int) returns (i: nat)
    requires Proper(t) && Balanced(t) && Sorted(InOrder(t))
    ensures var u, n := Removed(t, key), Found(t, key);
      && Balanced(u) && Proper(u) && Sorted(InOrder(u)) && Nodes(u) == Nodes(t) - {n}
      && (n == null ==> !Present(InOrder(t), key) && u == t)
      && (n != null ==> DeletedAt(InOrder(t), key, i, InOrder(u)) && n == InOrder(t)[i] && n in Nodes(t) && n.key == key)
  {
    RemovedNodes(t, key);
    RemovedIsBalanced(t, key);
    FoundIffPresent(t, key);
    FoundIsInside(t, key);
    i := 0;
    if Present(InOrder(t), key) {
      i := RemovedInOrder(t, key);
      DeletedSorted(InOrder(t), key, i, InOrder(Removed(t, key)));
    } else {
      RemovedAbsent(t, key);
    }
  }

  lemma DeletedSorted(s: seq<Node>, key: int, i: nat, s': seq<Node>)
    requires Sorted(s) && DeletedAt(s, key, i, s')
    ensures Sorted(s')
  {
    assert forall j :: 0 <= j < |s'| ==> s'[j] == if j < i then s[j] else s[j + 1];
  }

  // ---------- height ----------

  ghost function Fib(n: nat): nat {
    if n < 2 then n else Fib(n - 2) + Fib(n - 1)
  }

  ghost function Pow2(n: nat): nat {
    if n == 0 then 1 else 2 * Pow2(n - 1)
  }

  /** More nodes can never be addressed by 64-bit pointers. */
  const ADDRESSABLE := 0x1_0000_0000_0000_0000

  lemma {:induction false} FibGrows(n: nat)
    ensures Fib(n) <= Fib(n + 1) && 2 * Fib(n) <= Fib(n + 2)
  {
    if n > 0 { FibGrows(n - 1); }
  }

  lemma {:induction false} FibMonotone(m: nat, n: nat)
    requires m <= n
    ensures Fib(m) <= Fib(n)
    decreases n
  {
    if m < n {
      FibMonotone(m, n - 1);
      FibGrows(n - 1);
    }
  }

  lemma {:induction false} FibAbovePow2(k: nat)
    ensures Pow2(k) <= Fib(2 * k + 2)
  {
    if k > 0 {
      FibAbovePow2(k - 1);
      FibGrows(2 * k);
    }
  }

  lemma {:induction false} FibOfChildren(a: nat, b: nat)
    requires -1 <= a - b <= 1
    ensures Fib(Larger(a, b) + 3) <= Fib(a + 2) + Fib(b + 2)
  {
    var h := Larger(a, b) + 1;
    assert Fib(h + 2) == Fib(h) + Fib(h + 1);
    FibMonotone(h, (if a < b then a else b) + 2);
  }

  /** A balanced tree of height `h` has at least `Fib(h + 2) - 1` nodes. */
  lemma {:induction false} TallTreesAreLarge(t: Shape)
    requires Balanced(t)
    ensures Fib(Height(t) + 2) <= |InOrder(t)| + 1
  {
    if t.Branch? {
      TallTreesAreLarge(t.left);
      TallTreesAreLarge(t.right);
      FibOfChildren(Height(t.left), Height(t.right));
    }
  }

  lemma {:induction false} HeightBelow(t: Shape, k: nat)
    requires Balanced(t) && |InOrder(t)| + 1 < Pow2(k)
    ensures Height(t) < 2 * k
  {
    TallTreesAreLarge(t);
    FibAbovePow2(k);
    if 2 * k <= Height(t) { FibMonotone(2 * k + 2, Height(t) + 2); }
  }

  lemma Pow2Of64()
    ensures Pow2(64) == ADDRESSABLE
  {
    assert Pow2(8) == 0x100;
    assert Pow2(16) == 0x1_0000;
    assert Pow2(24) == 0x100_0000;
    assert Pow2(32) == 0x1_0000_0000;
    assert Pow2(40) == 0x100_0000_0000;
    assert Pow2(48) == 0x1_0000_0000_0000;
    assert Pow2(56) == 0x100_0000_0000_0000;
  }

  /** The `unsigned char` height never wraps. */
  lemma {:induction false} HeightFitsByte(t: Shape)
    requires Balanced(t) && |InOrder(t)| + 1 < ADDRESSABLE
    ensures Height(t) < 128
  {
    Pow2Of64();
    HeightBelow(t, 64);
  }

  // ---------- runs ----------

  datatype Op = Add(node: Node) | Drop(key: int)

  ghost function Applied(t: Shape, op: Op): Shape {
    match op
    case Add(n) => Inserted(t, n)
    case Drop(key) => Removed(t, key)
  }

  ghost function Run(t: Shape, ops: seq<Op>): Shape
    decreases ops
  {
    if ops == [] then t else Run(Applied(t, ops[0]), ops[1..])
  }

  /** Handles are fresh: none is added twice. */
  ghost predicate FreshHandles(t: Shape, ops: seq<Op>) {
    && (forall i :: 0 <= i < |ops| && ops[i].Add? ==> ops[i].node !in Nodes(t))
    && (forall i, j :: 0 <= i < j < |ops| && ops[i].Add? && ops[j].Add? ==> ops[i].node != ops[j].node)
  }

  ghost predicate Good(t: Shape) {
    Proper(t) && Balanced(t) && Sorted(InOrder(t))
  }

  lemma {:induction false} AppliedIsGood(t: Shape, op: Op)
    requires Good(t) && (op.Add? ==> op.node !in Nodes(t))
    ensures Good(Applied(t, op))
    ensures Nodes(Applied(t, op)) == if op.Add? then Nodes(t) + {op.node} else Nodes(t) - {Found(t, op.key)}
  {
    match op
    case Add(n) =>
      InsertedNodes(t, n);
      InsertedIsBalanced(t, n);
      var k := InsertedInOrder(t, n);
      StableInsertSorted(InOrder(t), n, k, InOrder(Inserted(t, n)));
    case Drop(key) =>
      RemovedNodes(t, key);
      RemovedIsBalanced(t, key);
      if Present(InOrder(t), key) {
        var i := RemovedInOrder(t, key);
        DeletedSorted(InOrder(t), key, i, InOrder(Removed(t, key)));
      } else {
        RemovedAbsent(t, key);
      }
  }

  /** Every run of additions and removals keeps order and balance, and only ever adds handles it was given. */
  lemma {:induction false} RunIsGood(t: Shape, ops: seq<Op>)
    requires Good(t) && FreshHandles(t, ops)
    ensures Good(Run(t, ops))
    ensures forall n :: n in Nodes(Run(t, ops)) ==> n in Nodes(t) || Add(n) in ops
    ensures forall n :: n in Nodes(t) && n !in Nodes(Run(t, ops)) ==> Drop(n.key) in ops
    decreases ops
  {
    if ops != [] {
      AppliedIsGood(t, ops[0]);
      if ops[0].Drop? { FoundIsInside(t, ops[0].key); }
      RunIsGood(Applied(t, ops[0]), ops[1..]);
    }
  }
}
