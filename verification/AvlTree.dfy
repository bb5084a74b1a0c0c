/**
 The pointer code of common/avl-tree.c.

 Each internal operation takes the shape of the subtree it works on as a ghost argument and is
 proved to leave the shape that the function of `AvlShape` gives, with every link, parent link and
 stored height right.  Places where the C text cannot be followed literally are marked "intent".
 */
module AvlTree {
  import opened AvlShape

  /** The links between the root of `t` and its two subtrees, both ways. */
  ghost predicate Attached(t: Shape)
    requires t.Branch?
    reads Nodes(t)
  {
    && t.node.left == Root(t.left) && t.node.right == Root(t.right)
    && (t.left.Branch? ==> t.left.node.parent == t.node)
    && (t.right.Branch? ==> t.right.node.parent == t.node)
  }

  /** Every link, parent link and stored height inside `t` is right; the root's parent is left open. */
  ghost predicate Linked(t: Shape)
    reads Nodes(t)
  {
    t.Branch? ==> Attached(t) && t.node.height == Height(t) && Linked(t.left) && Linked(t.right)
  }

  /** As `Linked`, but the stored height of the root may be out of date. */
  ghost predicate Loose(t: Shape)
    reads Nodes(t)
  {
    t.Branch? && Proper(t) && Attached(t) && Linked(t.left) && Linked(t.right)
  }

  /** The nodes of a shape at hand exist now, which lets a call leave them alone. */
  lemma {:induction false} Exists(t: Shape)
    ensures allocated(Nodes(t))
  {
    if t.Branch? {
      Exists(t.left);
      Exists(t.right);
    }
  }

  /** `node_height` */
  function NodeHeight(n: Node?): int
    reads n
  {
    if n != null then n.height else 0
  }

  /** `node_balance_factor` */
  function BalanceFactor(n: Node): int
    reads n, n.left, n.right
  {
    NodeHeight(n.right) - NodeHeight(n.left)
  }

  /** The stored heights give the factor that the shape has. */
  lemma {:induction false} StoredFactor(t: Shape)
    requires t.Branch? && Linked(t)
    ensures BalanceFactor(t.node) == Factor(t)
  {
    assert Linked(t.left) && Linked(t.right);
  }

  /** `node_fix_height`; the field is an `unsigned char`. */
  method FixHeight(n: Node, ghost t: Shape)
    requires Loose(t) && n == t.node && Height(t) < 256
    modifies n`height
    ensures Linked(t)
  {
    var hl := NodeHeight(n.left);
    var hr := NodeHeight(n.right);
    n.height := ((if hl > hr then hl else hr) + 1) % 256;
  }

  /** Point the root of `m` at its new parent. */
  method Adopt(c: Node?, p: Node, ghost m: Shape)
    requires c == Root(m) && Proper(m) && Linked(m)
    modifies c
    ensures Linked(m) && (c != null ==> c.parent == p)
  {
    if c != null { c.parent := p; }
  }

  /** The links of `tree_rotate_right`: `q`, once over `p.left`, goes over `p`; `m` changes hands. */
  method RelinkRight(p: Node, q: Node, ghost m: Shape)
    requires p != q && p !in Nodes(m) && q !in Nodes(m) && Proper(m) && Linked(m)
    requires p.left == q && q.right == Root(m)
    modifies p, q, Root(m)
    ensures Linked(m) && (m.Branch? ==> m.node.parent == p)
    ensures p.left == Root(m) && p.right == old(p.right) && p.parent == q
    ensures q.left == old(q.left) && q.right == p && q.parent == old(p.parent)
  {
    var middle := q.right;
    var pParent := p.parent;
    p.left := middle;
    q.right := p;
    if middle != null { middle.parent := p; }
    p.parent := q;
    q.parent := pParent;
  }

  /** The links of `tree_rotate_left`. */
  method RelinkLeft(p: Node, q: Node, ghost m: Shape)
    requires p != q && p !in Nodes(m) && q !in Nodes(m) && Proper(m) && Linked(m)
    requires q.right == p && p.left == Root(m)
    modifies p, q, Root(m)
    ensures Linked(m) && (m.Branch? ==> m.node.parent == q)
    ensures q.left == old(q.left) && q.right == Root(m) && q.parent == p
    ensures p.left == q && p.right == old(p.right) && p.parent == old(q.parent)
  {
    var middle := p.left;
    var qParent := q.parent;
    q.right := middle;
    p.left := q;
    if middle != null { middle.parent := q; }
    q.parent := p;
    p.parent := qParent;
  }

  /** `tree_rotate_right` */
  method RotateRight(p: Node, ghost t: Shape) returns (q: Node)
    requires Loose(t) && t.left.Branch? && p == t.node && Height(RotatedRight(t)) < 256
    modifies Nodes(t)
    ensures q == t.left.node && q.parent == old(p.parent)
    ensures Proper(RotatedRight(t)) && Linked(RotatedRight(t))
  {
    RotatedRightIsProper(t);
    Exists(t);
    q := p.left;
    RelinkRight(p, q, t.left.right);
    FixHeight(p, RotatedRight(t).right);
    FixHeight(q, RotatedRight(t));
  }

  /** `tree_rotate_left`; intent: `q_parent` is the parent of the old root, as on the other side. */
  method RotateLeft(q: Node, ghost t: Shape) returns (p: Node)
    requires Loose(t) && t.right.Branch? && q == t.node && Height(RotatedLeft(t)) < 256
    modifies Nodes(t)
    ensures p == t.right.node && p.parent == old(q.parent)
    ensures Proper(RotatedLeft(t)) && Linked(RotatedLeft(t))
  {
    RotatedLeftIsProper(t);
    Exists(t);
    p := q.right;
    RelinkLeft(p, q, t.right.left);
    FixHeight(q, RotatedLeft(t).left);
    FixHeight(p, RotatedLeft(t));
  }

  /** First half of a double rotation: the right child is rotated and hung up again. */
  method TurnRightChild(p: Node, ghost t: Shape)
    requires t.Branch? && Proper(t) && Linked(t) && p == t.node && t.right.Branch? && t.right.left.Branch?
    requires Height(RotatedRight(t.right)) < 256
    modifies Nodes(t)
    ensures Loose(Branch(t.left, p, RotatedRight(t.right))) && p.parent == old(p.parent)
  {
    Exists(t);
    RotatedRightIsProper(t.right);
    var r := RotateRight(p.right, t.right);
    p.right := r;
  }

  method TurnLeftChild(p: Node, ghost t: Shape)
    requires t.Branch? && Proper(t) && Linked(t) && p == t.node && t.left.Branch? && t.left.right.Branch?
    requires Height(RotatedLeft(t.left)) < 256
    modifies Nodes(t)
    ensures Loose(Branch(RotatedLeft(t.left), p, t.right)) && p.parent == old(p.parent)
  {
    Exists(t);
    RotatedLeftIsProper(t.left);
    var l := RotateLeft(p.left, t.left);
    p.left := l;
  }

  /** The `case +2` of `tree_balance`. */
  method BalanceRightHeavy(p: Node, ghost t: Shape) returns (q: Node)
    requires t.Branch? && Proper(t) && Linked(t) && p == t.node && Factor(t) == 2
    requires Balanced(t.left) && Balanced(t.right) && Height(t) < 255
    modifies Nodes(t)
    ensures q == Root(Rebalanced(t)) && q.parent == old(p.parent)
    ensures Proper(Rebalanced(t)) && Linked(Rebalanced(t))
  {
    RightHeavyRepaired(t);
    StoredFactor(t.right);
    if BalanceFactor(p.right) < 0 {
      assert t.right.left.Branch?;
      RotatedRightIsProper(t.right);
      TurnRightChild(p, t);
      q := RotateLeft(p, Branch(t.left, p, RotatedRight(t.right)));
    } else {
      q := RotateLeft(p, t);
    }
  }

  /** The `case -2` of `tree_balance`. */
  method BalanceLeftHeavy(p: Node, ghost t: Shape) returns (q: Node)
    requires t.Branch? && Proper(t) && Linked(t) && p == t.node && Factor(t) == -2
    requires Balanced(t.left) && Balanced(t.right) && Height(t) < 255
    modifies Nodes(t)
    ensures q == Root(Rebalanced(t)) && q.parent == old(p.parent)
    ensures Proper(Rebalanced(t)) && Linked(Rebalanced(t))
  {
    LeftHeavyRepaired(t);
    StoredFactor(t.left);
    if BalanceFactor(p.left) > 0 {
      assert t.left.right.Branch?;
      RotatedLeftIsProper(t.left);
      TurnLeftChild(p, t);
      q := RotateRight(p, Branch(RotatedLeft(t.left), p, t.right));
    } else {
      q := RotateRight(p, t);
    }
  }

  /** `tree_balance` */
  method Balance(p: Node, ghost t: Shape) returns (q: Node)
    requires Loose(t) && p == t.node && Height(t) < 255
    requires Balanced(t.left) && Balanced(t.right) && -2 <= Factor(t) <= 2
    modifies Nodes(t)
    ensures q == Root(Rebalanced(t)) && q.parent == old(p.parent)
    ensures Proper(Rebalanced(t)) && Linked(Rebalanced(t))
  {
    FixHeight(p, t);
    var factor := BalanceFactor(p);
    StoredFactor(t);
    if factor == 2 {
      q := BalanceRightHeavy(p, t);
    } else if factor == -2 {
      q := BalanceLeftHeavy(p, t);
    } else {
      q := p;
    }
  }

  /** Hang the subtree `l` on the left of `p`; intent: its parent link follows. */
  method AttachLeft(p: Node, c: Node?, ghost l: Shape, ghost r: Shape)
    requires c == Root(l) && Proper(Branch(l, p, r)) && Linked(l) && Linked(r)
    requires p.right == Root(r) && (r.Branch? ==> r.node.parent == p)
    modifies p`left, Nodes(l)`parent
    ensures Loose(Branch(l, p, r))
  {
    p.left := c;
    if c != null { c.parent := p; }
  }

  /** Hang the subtree `r` on the right of `p`; intent: its parent link follows. */
  method AttachRight(p: Node, c: Node?, ghost l: Shape, ghost r: Shape)
    requires c == Root(r) && Proper(Branch(l, p, r)) && Linked(l) && Linked(r)
    requires p.left == Root(l) && (l.Branch? ==> l.node.parent == p)
    modifies p`right, Nodes(r)`parent
    ensures Loose(Branch(l, p, r))
  {
    p.right := c;
    if c != null { c.parent := p; }
  }

  /** What `Balance` needs after an insertion below. */
  lemma {:induction false} InsertedLeft(t: Shape, n: Node)
    requires t.Branch? && Proper(t) && Balanced(t) && n !in Nodes(t)
    ensures var u := Branch(Inserted(t.left, n), t.node, t.right);
      && Proper(u) && Balanced(u.left) && -2 <= Factor(u) <= 2 && Height(u) <= Height(t) + 1
      && Nodes(u) == Nodes(t) + {n}
  {
    InsertedNodes(t.left, n);
    InsertedIsBalanced(t.left, n);
  }

  lemma {:induction false} InsertedRight(t: Shape, n: Node)
    requires t.Branch? && Proper(t) && Balanced(t) && n !in Nodes(t)
    ensures var u := Branch(t.left, t.node, Inserted(t.right, n));
      && Proper(u) && Balanced(u.right) && -2 <= Factor(u) <= 2 && Height(u) <= Height(t) + 1
      && Nodes(u) == Nodes(t) + {n}
  {
    InsertedNodes(t.right, n);
    InsertedIsBalanced(t.right, n);
  }

  /** `tree_insert`; intent: the result of `tree_balance` is returned. */
  method Insert(p: Node?, key: int, data: object?, ghost t: Shape) returns (q: Node, n: Node)
    requires p == Root(t) && Proper(t) && Linked(t) && Balanced(t) && Height(t) < 254
    modifies Nodes(t)
    ensures fresh(n) && n.key == key && n.data == data
    ensures Proper(Inserted(t, n)) && Linked(Inserted(t, n))
    ensures q == Root(Inserted(t, n)) && q.parent == if p == null then null else old(p.parent)
    decreases t
  {
    if p == null {
      n := new Node(key, data);
      q := n;
      return;
    }
    Exists(t);
    if key < p.key {
      q, n := Insert(p.left, key, data, t.left);
      InsertedLeft(t, n);
      AttachLeft(p, q, Inserted(t.left, n), t.right);
      q := Balance(p, Branch(Inserted(t.left, n), p, t.right));
    } else {
      q, n := Insert(p.right, key, data, t.right);
      InsertedRight(t, n);
      AttachRight(p, q, t.left, Inserted(t.right, n));
      q := Balance(p, Branch(t.left, p, Inserted(t.right, n)));
    }
  }

  /** `avl_tree_min` */
  method Min(root: Node, ghost t: Shape) returns (n: Node)
    requires t.Branch? && root == t.node && Linked(t)
    ensures n == MinNode(t)
  {
    n := root;
    ghost var u := t;
    var left := n.left;
    while left != null
      invariant u.Branch? && n == u.node && Linked(u) && left == n.left && MinNode(u) == MinNode(t)
      decreases u
    {
      n := left;
      u := u.left;
      left := n.left;
    }
  }

  /** `tree_remove_minimum_node`; intent: the parent link of what moves up is repaired. */
  method RemoveMinimum(p: Node, ghost t: Shape) returns (q: Node?)
    requires t.Branch? && p == t.node && Proper(t) && Linked(t) && Balanced(t) && Height(t) < 254
    modifies Nodes(t)
    ensures q == Root(RemovedMin(t)) && Proper(RemovedMin(t)) && Linked(RemovedMin(t))
    decreases t
  {
    if p.left == null {
      return p.right;
    }
    Exists(t);
    q := RemoveMinimum(p.left, t.left);
    RemovedMinNodes(t.left);
    RemovedMinIsBalanced(t.left);
    AttachLeft(p, q, RemovedMin(t.left), t.right);
    q := Balance(p, Branch(RemovedMin(t.left), p, t.right));
  }

  /** Put `n` on top of two subtrees and below `parent`. */
  method Crown(n: Node, l: Node?, r: Node?, parent: Node?, ghost a: Shape, ghost b: Shape)
    requires l == Root(a) && r == Root(b) && Proper(Branch(a, n, b)) && Linked(a) && Linked(b)
    modifies Nodes(Branch(a, n, b))
    ensures Loose(Branch(a, n, b)) && n.parent == parent
  {
    Exists(Branch(a, n, b));
    n.right := r;
    n.left := l;
    Adopt(l, n, a);
    Adopt(r, n, b);
    n.parent := parent;
  }

  /** The last branch of `tree_remove_node`: the successor takes the place of `p`. */
  method Splice(p: Node, ghost t: Shape) returns (q: Node)
    requires t.Branch? && t.right.Branch? && p == t.node
    requires Proper(t) && Linked(t) && Balanced(t) && Height(t) < 254
    modifies Nodes(t) - {p}
    ensures q == Root(Removed(t, p.key)) && q.parent == old(p.parent)
    ensures Proper(Removed(t, p.key)) && Linked(Removed(t, p.key))
  {
    Exists(t);
    var l, r, pParent := p.left, p.right, p.parent;
    var min := Min(r, t.right);
    RemovedMinNodes(t.right);
    RemovedMinIsBalanced(t.right);
    var rest := RemoveMinimum(r, t.right);
    Crown(min, l, rest, pParent, t.left, RemovedMin(t.right));
    q := Balance(min, Branch(t.left, min, RemovedMin(t.right)));
  }

  /** The branch of `tree_remove_node` that has found its node, which it does not write to any more. */
  method RemoveRoot(p: Node, ghost t: Shape) returns (q: Node?)
    requires t.Branch? && p == t.node
    requires Proper(t) && Linked(t) && Balanced(t) && Height(t) < 254
    modifies Nodes(t) - {p}
    ensures q == Root(Removed(t, p.key)) && (q != null ==> q.parent == old(p.parent))
    ensures Proper(Removed(t, p.key)) && Linked(Removed(t, p.key))
  {
    q := p.left;
    if p.right == null {
      if q != null { q.parent := p.parent; }
    } else {
      q := Splice(p, t);
    }
  }

  /** What `tree_remove_node` does with the subtree that comes back on the left. */
  method RefitLeft(p: Node, c: Node?, ghost l: Shape, ghost r: Shape) returns (q: Node)
    requires c == Root(l) && (c != null ==> c.parent == p) && Linked(l)
    requires p.right == Root(r) && (r.Branch? ==> r.node.parent == p) && Linked(r)
    requires Proper(Branch(l, p, r)) && Balanced(l) && Balanced(r)
    requires -2 <= Factor(Branch(l, p, r)) <= 2 && Height(Branch(l, p, r)) < 255
    modifies Nodes(Branch(l, p, r))
    ensures q == Root(Rebalanced(Branch(l, p, r))) && q.parent == old(p.parent)
    ensures Proper(Rebalanced(Branch(l, p, r))) && Linked(Rebalanced(Branch(l, p, r)))
  {
    Exists(Branch(l, p, r));
    p.left := c;
    q := Balance(p, Branch(l, p, r));
  }

  method RefitRight(p: Node, c: Node?, ghost l: Shape, ghost r: Shape) returns (q: Node)
    requires c == Root(r) && (c != null ==> c.parent == p) && Linked(r)
    requires p.left == Root(l) && (l.Branch? ==> l.node.parent == p) && Linked(l)
    requires Proper(Branch(l, p, r)) && Balanced(l) && Balanced(r)
    requires -2 <= Factor(Branch(l, p, r)) <= 2 && Height(Branch(l, p, r)) < 255
    modifies Nodes(Branch(l, p, r))
    ensures q == Root(Rebalanced(Branch(l, p, r))) && q.parent == old(p.parent)
    ensures Proper(Rebalanced(Branch(l, p, r))) && Linked(Rebalanced(Branch(l, p, r)))
  {
    Exists(Branch(l, p, r));
    p.right := c;
    q := Balance(p, Branch(l, p, r));
  }

  /** `tree_remove_node`; `taken` is the node that leaves, whose data `*return_data` receives (intent). */
  method Remove(p: Node?, key: int, ghost t: Shape) returns (q: Node?, taken: Node?)
    requires p == Root(t) && Proper(t) && Linked(t) && Balanced(t) && Height(t) < 254
    modifies Nodes(t)
    ensures q == Root(Removed(t, key)) && taken == Found(t, key)
    ensures Proper(Removed(t, key)) && Linked(Removed(t, key))
    ensures q != null ==> p != null && q.parent == old(p.parent)
    decreases t
  {
    if p == null {
      return null, null;
    }
    Exists(t);
    if key < p.key {
      q, taken := Remove(p.left, key, t.left);
      RemovedLeft(t, key);
      q := RefitLeft(p, q, Removed(t.left, key), t.right);
    } else if key > p.key {
      q, taken := Remove(p.right, key, t.right);
      RemovedRight(t, key);
      q := RefitRight(p, q, t.left, Removed(t.right, key));
    } else {
      taken := p;
      q := RemoveRoot(p, t);
    }
  }

  lemma {:induction false} RemovedLeft(t: Shape, key: int)
    requires t.Branch? && Proper(t) && Balanced(t)
    ensures var u := Branch(Removed(t.left, key), t.node, t.right);
      && Proper(u) && Balanced(u.left) && -2 <= Factor(u) <= 2 && Height(u) <= Height(t)
      && Nodes(u) <= Nodes(t) && Nodes(u.left) <= Nodes(t.left)
  {
    RemovedNodes(t.left, key);
    RemovedIsBalanced(t.left, key);
  }

  lemma {:induction false} RemovedRight(t: Shape, key: int)
    requires t.Branch? && Proper(t) && Balanced(t)
    ensures var u := Branch(t.left, t.node, Removed(t.right, key));
      && Proper(u) && Balanced(u.right) && -2 <= Factor(u) <= 2 && Height(u) <= Height(t)
      && Nodes(u) <= Nodes(t) && Nodes(u.right) <= Nodes(t.right)
  {
    RemovedNodes(t.right, key);
    RemovedIsBalanced(t.right, key);
  }
}
