/**
 The public operations of common/avl-tree.h on a tree object.

 `contents` is the in-order sequence of node handles.  Every operation is specified on it; that the
 tree is balanced, linked both ways and holds exact heights is part of `Valid`.
 */
module AvlApi {
  import opened AvlShape
  import opened AvlTree
  import opened AvlWalk

  /** `tree_find`, descending through the heap. */
  function Find(p: Node?, key: int, ghost t: Shape): (r: Node?)
    requires p == Root(t) && Linked(t)
    reads Nodes(t)
    ensures r == Found(t, key)
    decreases t
  {
    if p == null then null
    else if key < p.key then Find(p.left, key, t.left)
    else if key > p.key then Find(p.right, key, t.right)
    else p
  }

  /** `struct avl_tree` */
  class Tree {
    var root: Node?
    ghost var shape: Shape
    ghost var contents: seq<Node>
    ghost var nodes: set<Node>

    ghost predicate Valid()
      reads this, nodes
    {
      && nodes == Nodes(shape) && contents == InOrder(shape)
      && root == Root(shape) && Rooted(shape) && Balanced(shape) && Sorted(contents)
    }

    /** `avl_tree_init` */
    constructor ()
      ensures Valid() && contents == [] && nodes == {}
    {
      root := null;
      shape, contents, nodes := Leaf, [], {};
    }

    /** `avl_tree_add`: the new handle goes after every key that is not larger. */
    method Add(key: int, data: object?) returns (n: Node, ghost k: nat)
      requires Valid() && |contents| + 1 < ADDRESSABLE
      modifies this, nodes
      ensures Valid() && fresh(n) && n.key == key && n.data == data
      ensures StableInsertAt(old(contents), n, k, contents)
      ensures nodes == old(nodes) + {n}
    {
      HeightFitsByte(shape);
      var q;
      q, n := Insert(root, key, data, shape);
      InsertedNodes(shape, n);
      InsertedIsBalanced(shape, n);
      k := InsertedInOrder(shape, n);
      StableInsertSorted(InOrder(shape), n, k, InOrder(Inserted(shape, n)));
      root := q;
      shape := Inserted(shape, n);
      contents, nodes := InOrder(shape), Nodes(shape);
    }

    /**
     `avl_tree_remove`: one handle with the key leaves and its data is returned; intent: NULL when
     there is none.  Every other handle stays where it was in the order.
     */
    method Remove(key: int) returns (data: object?, ghost taken: Node?, ghost i: nat)
      requires Valid() && |contents| + 1 < ADDRESSABLE
      modifies this, nodes
      ensures Valid()
      ensures taken == null ==> !Present(old(contents), key) && contents == old(contents) && data == null
      ensures taken != null ==> DeletedAt(old(contents), key, i, contents)
      ensures taken != null ==> taken == old(contents)[i] && data == taken.data
      ensures taken != null ==> taken in old(nodes) && taken.key == key
      ensures taken == Found(old(shape), key)
      ensures nodes == old(nodes) - {taken}
    {
      HeightFitsByte(shape);
      var q, gone := AvlTree.Remove(root, key, shape);
      taken := gone;
      i := RemovedSummary(shape, key);
      data := if gone == null then null else gone.data;
      root := q;
      shape := Removed(shape, key);
      contents, nodes := InOrder(shape), Nodes(shape);
    }

    /** `avl_tree_get` */
    method Get(key: int) returns (n: Node?)
      requires Valid()
      ensures n != null <==> Present(contents, key)
      ensures n != null ==> n in contents && n.key == key
      ensures n == Found(shape, key)
    {
      FoundIffPresent(shape, key);
      n := Find(root, key, shape);
    }

    /** Walking from the smallest node with `avl_tree_next` meets every node once, in order. */
    method WalkUp() returns (visited: seq<Node>)
      requires Valid()
      ensures visited == contents
      ensures forall i, j :: 0 <= i < j < |visited| ==> visited[i] != visited[j]
    {
      visited := [];
      forall i, j | 0 <= i < j < |contents| ensures contents[i] != contents[j] {
        InOrderDistinct(shape, i, j);
      }
      if root == null { return; }
      FirstIsMin(shape);
      var n: Node? := Min(root, shape);
      while n != null
        invariant Valid()
        invariant |visited| <= |contents| && visited == contents[..|visited|]
        invariant n == if |visited| < |contents| then contents[|visited|] else null
        decreases |contents| - |visited|
      {
        ghost var i := |visited|;
        visited := visited + [n];
        n := Next(n, shape, i);
      }
    }

    /** Walking from the largest node with `avl_tree_prev` meets every node once, backwards. */
    method WalkDown() returns (visited: seq<Node>)
      requires Valid()
      ensures |visited| == |contents|
      ensures forall i :: 0 <= i < |visited| ==> visited[i] == contents[|visited| - 1 - i]
    {
      visited := [];
      if root == null { return; }
      LastIsMax(shape);
      var n: Node? := Max(root, shape);
      while n != null
        invariant Valid()
        invariant |visited| <= |contents|
        invariant forall i :: 0 <= i < |visited| ==> visited[i] == contents[|contents| - 1 - i]
        invariant n == if |visited| < |contents| then contents[|contents| - 1 - |visited|] else null
        decreases |contents| - |visited|
      {
        ghost var i := |contents| - 1 - |visited|;
        visited := visited + [n];
        n := Prev(n, shape, i);
      }
    }

    /** `avl_tree_prev` undoes `avl_tree_next`, and the other way round. */
    method ThereAndBack(n: Node, ghost i: nat) returns (next: Node?, prev: Node?, back: Node?, forth: Node?)
      requires Valid() && i < |contents| && n == contents[i]
      ensures next != null ==> back == n
      ensures prev != null ==> forth == n
      ensures next == null <==> i + 1 == |contents|
      ensures prev == null <==> i == 0
    {
      next := Next(n, shape, i);
      back := Prev(next, shape, i + 1);
      prev := Prev(n, shape, i);
      forth := Next(prev, shape, if i == 0 then 0 else i - 1);
    }
  }
}
