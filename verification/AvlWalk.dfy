/**
 In-order walking through parent links (`avl_tree_next`, `avl_tree_prev` of common/avl-tree.c).

 A path from the root (false is left, true is right) says where a subtree sits, and `Offset` how
 many nodes come before it in order.  Climbing a parent link drops the last turn of the path.
 */
module AvlWalk {
  import opened AvlShape
  import opened AvlTree

  type Path = seq<bool>

  ghost function At(t: Shape, path: Path): Shape {
    if path == [] || t.Leaf? then t
    else At(if path[0] then t.right else t.left, path[1..])
  }

  ghost function Offset(t: Shape, path: Path): nat {
    if path == [] || t.Leaf? then 0
    else if path[0] then |InOrder(t.left)| + 1 + Offset(t.right, path[1..])
    else Offset(t.left, path[1..])
  }

  /** The subtree at a path is the run of the in-order sequence that starts at its offset. */
  lemma {:induction false} AtIsRun(t: Shape, path: Path)
    ensures Offset(t, path) + |InOrder(At(t, path))| <= |InOrder(t)|
    ensures InOrder(At(t, path)) == InOrder(t)[Offset(t, path)..Offset(t, path) + |InOrder(At(t, path))|]
  {
    if path != [] && t.Branch? {
      AtIsRun(if path[0] then t.right else t.left, path[1..]);
    }
  }

  /** One more turn at the end of a path. */
  lemma {:induction false} LastTurn(t: Shape, path: Path, turn: bool)
    requires At(t, path + [turn]).Branch?
    ensures At(t, path).Branch?
    ensures var u := At(t, path);
      && At(t, path + [turn]) == (if turn then u.right else u.left)
      && Offset(t, path + [turn]) == Offset(t, path) + (if turn then |InOrder(u.left)| + 1 else 0)
  {
    if path == [] {
      assert path + [turn] == [turn];
    } else {
      assert (path + [turn])[1..] == path[1..] + [turn];
      LastTurn(if path[0] then t.right else t.left, path[1..], turn);
    }
  }

  /** Every node of the sequence has a path. */
  lemma {:induction false} PathTo(t: Shape, i: nat) returns (path: Path)
    requires i < |InOrder(t)|
    ensures At(t, path).Branch? && i == Offset(t, path) + |InOrder(At(t, path).left)|
    ensures At(t, path).node == InOrder(t)[i]
  {
    var l := |InOrder(t.left)|;
    if i < l {
      path := PathTo(t.left, i);
      path := [false] + path;
    } else if i == l {
      path := [];
    } else {
      path := PathTo(t.right, i - l - 1);
      path := [true] + path;
    }
  }

  lemma {:induction false} AtIsLinked(t: Shape, path: Path)
    requires Proper(t) && Linked(t)
    ensures Proper(At(t, path)) && Linked(At(t, path)) && Nodes(At(t, path)) <= Nodes(t)
  {
    if path != [] && t.Branch? {
      AtIsLinked(if path[0] then t.right else t.left, path[1..]);
    }
  }

  ghost function Up(path: Path): Path
    requires path != []
  {
    path[..|path| - 1]
  }

  /** What one parent link says: which child it came from, and where the parent's run lies. */
  lemma {:induction false} Climb(t: Shape, path: Path)
    requires path != [] && Proper(t) && Linked(t) && At(t, path).Branch?
    ensures var u, s, turn := At(t, Up(path)), At(t, path), path[|path| - 1];
      && u.Branch? && s.node.parent == u.node
      && (u.node.left == s.node <==> !turn) && (u.node.right == s.node <==> turn)
      && s == (if turn then u.right else u.left)
      && Offset(t, path) == Offset(t, Up(path)) + (if turn then |InOrder(u.left)| + 1 else 0)
  {
    var turn := path[|path| - 1];
    assert Up(path) + [turn] == path;
    LastTurn(t, Up(path), turn);
    AtIsLinked(t, Up(path));
  }

  /** `tree_is_left` */
  predicate IsLeft(p: Node?)
    reads p, if p == null then null else p.parent
  {
    p != null && p.parent != null && p.parent.left == p
  }

  /** `tree_is_right` */
  predicate IsRight(p: Node?)
    reads p, if p == null then null else p.parent
  {
    p != null && p.parent != null && p.parent.right == p
  }

  /** A whole tree: linked, and nothing above the root. */
  ghost predicate Rooted(t: Shape)
    reads Nodes(t)
  {
    Proper(t) && Linked(t) && (t.Branch? ==> t.node.parent == null)
  }

  lemma {:induction false} ClimbOrTop(t: Shape, path: Path)
    requires Rooted(t) && At(t, path).Branch?
    ensures var s := At(t, path);
      && (path == [] <==> s.node.parent == null)
      && (IsLeft(s.node) <==> path != [] && !path[|path| - 1])
      && (IsRight(s.node) <==> path != [] && path[|path| - 1])
  {
    if path != [] { Climb(t, path); }
  }

  ghost predicate Successor(s: seq<Node>, i: nat, r: Node?) {
    r == if i + 1 < |s| then s[i + 1] else null
  }

  /** A subtree that ends at position `i` and hangs on the left: its parent comes next. */
  lemma {:induction false} ParentIsNext(t: Shape, path: Path, i: nat)
    requires Rooted(t) && At(t, path).Branch? && Offset(t, path) + |InOrder(At(t, path))| == i + 1
    requires path != [] && !path[|path| - 1]
    ensures Successor(InOrder(t), i, At(t, path).node.parent)
  {
    Climb(t, path);
    AtIsRun(t, Up(path));
    var u, o := At(t, Up(path)), Offset(t, Up(path));
    assert InOrder(u)[|InOrder(u.left)|] == u.node;
    assert InOrder(u)[|InOrder(u.left)|] == InOrder(t)[o + |InOrder(u.left)|];
  }

  /** A node with a right subtree comes right before the smallest node there. */
  lemma MinIsNext(t: Shape, path: Path, i: nat)
    requires At(t, path).Branch? && At(t, path).right.Branch? && i < |InOrder(t)|
    requires i == Offset(t, path) + |InOrder(At(t, path).left)|
    ensures Successor(InOrder(t), i, MinNode(At(t, path).right))
  {
    var u := At(t, path);
    AtIsRun(t, path);
    FirstIsMin(u.right);
    assert InOrder(u)[|InOrder(u.left)| + 1] == InOrder(u.right)[0];
  }

  /** `avl_tree_next` */
  method Next(node: Node?, ghost t: Shape, ghost i: nat) returns (r: Node?)
    requires Rooted(t)
    requires node != null ==> i < |InOrder(t)| && node == InOrder(t)[i]
    ensures node == null ==> r == null
    ensures node != null ==> Successor(InOrder(t), i, r)
  {
    if node == null { return null; }
    ghost var path := PathTo(t, i);
    AtIsLinked(t, path);
    if node.right == null {
      ClimbOrTop(t, path);
      if IsLeft(node) {
        ParentIsNext(t, path, i);
        return node.parent;
      }
      r := ClimbWhileRight(node, t, path, i);
    } else {
      r := Min(node.right, At(t, path).right);
      MinIsNext(t, path, i);
    }
  }

  lemma {:induction false} FirstIsMin(t: Shape)
    requires t.Branch?
    ensures InOrder(t) != [] && InOrder(t)[0] == MinNode(t)
  {
    if t.left.Branch? { FirstIsMin(t.left); }
  }

  /** The loop of `avl_tree_next`: up while coming from the right, then once more. */
  method ClimbWhileRight(node: Node, ghost t: Shape, ghost path: Path, ghost i: nat) returns (p: Node?)
    requires Rooted(t) && At(t, path).Branch? && node == At(t, path).node && !IsLeft(node)
    requires Offset(t, path) + |InOrder(At(t, path))| == i + 1
    ensures Successor(InOrder(t), i, p)
  {
    p := node.parent;
    ghost var at := path;
    ClimbOrTop(t, path);
    if path != [] { Climb(t, path); at := Up(path); }
    while p != null && !IsLeft(p)
      invariant Rooted(t)
      invariant p == null ==> i + 1 == |InOrder(t)|
      invariant p != null ==> At(t, at).Branch? && p == At(t, at).node
      invariant p != null ==> Offset(t, at) + |InOrder(At(t, at))| == i + 1
      decreases if p == null then 0 else |at| + 1
    {
      ClimbOrTop(t, at);
      p := p.parent;
      if at != [] { Climb(t, at); at := Up(at); }
    }
    if p != null { ClimbOrTop(t, at); ParentIsNext(t, at, i); }
    if p != null && !IsRight(p) { p := p.parent; }
  }

  // ---------- the other direction ----------

  ghost function MaxNode(t: Shape): Node
    requires t.Branch?
  {
    if t.right.Leaf? then t.node else MaxNode(t.right)
  }

  lemma {:induction false} LastIsMax(t: Shape)
    requires t.Branch?
    ensures InOrder(t) != [] && InOrder(t)[|InOrder(t)| - 1] == MaxNode(t)
  {
    if t.right.Branch? { LastIsMax(t.right); }
  }

  /** `avl_tree_max`; intent: the node reached is returned, not its missing right child. */
  method Max(root: Node, ghost t: Shape) returns (n: Node)
    requires t.Branch? && root == t.node && Linked(t)
    ensures n == MaxNode(t)
  {
    n := root;
    ghost var u := t;
    var right := n.right;
    while right != null
      invariant u.Branch? && n == u.node && Linked(u) && right == n.right && MaxNode(u) == MaxNode(t)
      decreases u
    {
      n := right;
      u := u.right;
      right := n.right;
    }
  }

  ghost predicate Predecessor(s: seq<Node>, i: nat, r: Node?)
    requires i < |s|
  {
    r == if i == 0 then null else s[i - 1]
  }

  /** A subtree that starts at position `i` and hangs on the right: its parent comes before. */
  lemma {:induction false} ParentIsPrevious(t: Shape, path: Path, i: nat)
    requires Rooted(t) && At(t, path).Branch? && Offset(t, path) == i < |InOrder(t)|
    requires path != [] && path[|path| - 1]
    ensures Predecessor(InOrder(t), i, At(t, path).node.parent)
  {
    Climb(t, path);
    AtIsRun(t, Up(path));
    var u, o := At(t, Up(path)), Offset(t, Up(path));
    assert InOrder(u)[|InOrder(u.left)|] == u.node;
    assert InOrder(u)[|InOrder(u.left)|] == InOrder(t)[o + |InOrder(u.left)|];
  }

  /** A node with a left subtree comes right behind the largest node there. */
  lemma MaxIsPrevious(t: Shape, path: Path, i: nat)
    requires At(t, path).Branch? && At(t, path).left.Branch? && i < |InOrder(t)|
    requires i == Offset(t, path) + |InOrder(At(t, path).left)|
    ensures Predecessor(InOrder(t), i, MaxNode(At(t, path).left))
  {
    var u := At(t, path);
    AtIsRun(t, path);
    LastIsMax(u.left);
    assert InOrder(u)[|InOrder(u.left)| - 1] == InOrder(u.left)[|InOrder(u.left)| - 1];
  }

  /** `avl_tree_prev` */
  method Prev(node: Node?, ghost t: Shape, ghost i: nat) returns (r: Node?)
    requires Rooted(t)
    requires node != null ==> i < |InOrder(t)| && node == InOrder(t)[i]
    ensures node == null ==> r == null
    ensures node != null ==> Predecessor(InOrder(t), i, r)
  {
    if node == null { return null; }
    ghost var path := PathTo(t, i);
    AtIsLinked(t, path);
    if node.left == null {
      ClimbOrTop(t, path);
      if IsRight(node) {
        ParentIsPrevious(t, path, i);
        return node.parent;
      }
      r := ClimbWhileLeft(node, t, path, i);
    } else {
      r := Max(node.left, At(t, path).left);
      MaxIsPrevious(t, path, i);
    }
  }

  /** The loop of `avl_tree_prev`: up while coming from the left, then once more. */
  method ClimbWhileLeft(node: Node, ghost t: Shape, ghost path: Path, ghost i: nat) returns (p: Node?)
    requires Rooted(t) && At(t, path).Branch? && node == At(t, path).node && !IsRight(node)
    requires Offset(t, path) == i < |InOrder(t)|
    ensures Predecessor(InOrder(t), i, p)
  {
    p := node.parent;
    ghost var at := path;
    ClimbOrTop(t, path);
    if path != [] { Climb(t, path); at := Up(path); }
    while p != null && !IsRight(p)
      invariant Rooted(t)
      invariant p == null ==> i == 0
      invariant p != null ==> At(t, at).Branch? && p == At(t, at).node && Offset(t, at) == i
      decreases if p == null then 0 else |at| + 1
    {
      ClimbOrTop(t, at);
      p := p.parent;
      if at != [] { Climb(t, at); at := Up(at); }
    }
    if p != null { ClimbOrTop(t, at); ParentIsPrevious(t, at, i); }
    if p != null && !IsLeft(p) { p := p.parent; }
  }
}
