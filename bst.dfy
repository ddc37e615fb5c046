/**
 * The binary search tree of go/bst/bst.go: `New`, the in-place `Insert` that
 * only ever walks right, and the recursive in-order traversal.
 */
module BinarySearchTree {

  class Node {
    const data: int
    var left: Node?
    var right: Node?

    constructor (v: int)
      ensures data == v && left == null && right == null
    {
      data := v;
      left, right := null, null;
    }
  }

  /** `node` is nil or roots a finite tree whose nodes are drawn from `nodes`. */
  ghost predicate IsTree(node: Node?, nodes: set<Node>)
    reads nodes
    decreases nodes
  {
    node == null ||
    (node in nodes && IsTree(node.left, nodes - {node}) && IsTree(node.right, nodes - {node}))
  }

  /**
   * In-order traversal: the left subtree, then the node's own value, then the
   * right subtree. The Go code prints the values; here they are returned.
   */
  function InOrder(node: Node?, ghost nodes: set<Node>): (s: seq<int>)
    requires IsTree(node, nodes)
    reads nodes
    decreases nodes
    ensures node == null <==> s == []
  {
    if node == null then []
    else InOrder(node.left, nodes - {node}) + [node.data] + InOrder(node.right, nodes - {node})
  }

  ghost predicate StrictlyIncreasing(s: seq<int>)
  {
    forall i, j :: 0 <= i < j < |s| ==> s[i] < s[j]
  }

  /** `v` exceeds the last value of `s`, or `s` is empty. */
  ghost predicate AboveLast(s: seq<int>, v: int)
  {
    s == [] || s[|s| - 1] < v
  }

  class Tree {
    var root: Node?
    /** The right spine: `root`, `root.right`, `root.right.right`, ... */
    ghost var spine: seq<Node>
    /** The values down the right spine, from the root. */
    ghost var values: seq<int>
    /** Every node the tree has allocated, the spine among them. */
    ghost var Repr: set<Node>

    /**
     * The shape of every tree `New` and `Insert` can build: a right spine whose
     * values increase at every step and whose left children are all nil.
     */
    ghost predicate Valid()
      reads this, spine
    {
      (spine == [] <==> root == null) &&
      (spine != [] ==> root == spine[0] && spine[|spine| - 1].right == null) &&
      (forall i :: 0 <= i < |spine| - 1 ==> spine[i].right == spine[i + 1]) &&
      (forall i :: 0 <= i < |spine| ==> spine[i].left == null && spine[i] in Repr) &&
      |values| == |spine| &&
      (forall i :: 0 <= i < |spine| ==> values[i] == spine[i].data) &&
      (forall i :: 0 <= i < |values| - 1 ==> values[i] < values[i + 1])
    }

    /** On a valid spine exactly the last node has a nil `right`. */
    lemma NilRightMarksLast(i: nat)
      requires Valid() && i < |spine|
      ensures spine[i].right == null <==> i == |spine| - 1
    {
      if i < |spine| - 1 {
        assert spine[i].right == spine[i + 1];
      }
    }

    /** Each step down the spine increases the value, so the whole spine does. */
    lemma {:induction false} SpineIncreasing(i: nat, j: nat)
      requires Valid() && i < j < |values|
      ensures values[i] < values[j]
      decreases j - i
    {
      if i + 1 < j {
        SpineIncreasing(i, j - 1);
      }
    }

    /** The values down the spine strictly increase. */
    lemma SpineSorted()
      requires Valid()
      ensures StrictlyIncreasing(values)
    {
      forall i, j | 0 <= i < j < |values|
        ensures values[i] < values[j]
      {
        SpineIncreasing(i, j);
      }
    }

    /**
     * `v` lies above the last spine value exactly when it lies above every
     * spine value, that is, above each value `Insert` compares it with.
     */
    lemma AboveLastIffAboveAll(v: int)
      requires Valid()
      ensures AboveLast(values, v) <==> forall x :: x in values ==> x < v
    {
      if AboveLast(values, v) && values != [] {
        forall x | x in values
          ensures x < v
        {
          var i :| 0 <= i < |values| && values[i] == x;
          if i < |values| - 1 {
            SpineIncreasing(i, |values| - 1);
          }
        }
      }
      if values != [] {
        assert values[|values| - 1] in values;
      }
    }

    /** The spine node at position `i`, or nil just past the end. */
    ghost function NodeAt(i: nat): Node?
      reads this
      requires i <= |spine|
    {
      if i < |spine| then spine[i] else null
    }

    /** Traversing from the spine node at `i` visits the rest of the spine in order. */
    lemma {:induction false} InOrderFrom(i: nat, nodes: set<Node>)
      requires Valid() && i <= |spine|
      requires forall j :: i <= j < |spine| ==> spine[j] in nodes
      ensures IsTree(NodeAt(i), nodes)
      ensures InOrder(NodeAt(i), nodes) == values[i..]
      decreases |spine| - i
    {
      if i < |spine| {
        var node, rest := spine[i], nodes - {spine[i]};
        forall j | i + 1 <= j < |spine|
          ensures spine[j] in rest
        {
          SpineIncreasing(i, j);
        }
        InOrderFrom(i + 1, rest);
        assert node.left == null && node.right == NodeAt(i + 1);
        assert IsTree(node, nodes);
        calc {
          InOrder(node, nodes);
          InOrder(null, rest) + [node.data] + InOrder(NodeAt(i + 1), rest);
          [values[i]] + values[i + 1..];
          { assert values[i..] == [values[i]] + values[i + 1..]; }
          values[i..];
        }
      }
    }

    /**
     * What `InOrder(root)` emits for a tree built by `New` and `Insert`: the
     * spine's values from the root down, in strictly increasing order.
     */
    lemma InOrderSorted()
      requires Valid()
      ensures IsTree(root, Repr)
      ensures InOrder(root, Repr) == values
      ensures StrictlyIncreasing(InOrder(root, Repr))
    {
      InOrderFrom(0, Repr);
      assert values[0..] == values;
      SpineSorted();
    }

    /** `New`: an empty tree. */
    constructor ()
      ensures Valid() && root == null && spine == [] && values == [] && Repr == {}
    {
      root := null;
      spine, values, Repr := [], [], {};
    }

    /** Hangs a fresh leaf holding `v` as the `right` child of the last spine node. */
    method Attach(current: Node, ghost k: nat, v: int) returns (leaf: Node)
      requires Valid() && k == |spine| - 1 && current == spine[k] && current.data < v
      modifies this`spine, this`values, this`Repr, current`right
      ensures Valid() && spine == old(spine) + [leaf] && values == old(values) + [v]
      ensures Repr == old(Repr) + {leaf} && fresh(leaf)
    {
      leaf := new Node(v);
      current.right := leaf;
      spine, values, Repr := spine + [leaf], values + [v], Repr + {leaf};
    }

    /**
     * `Insert(v)`. The Go loop has no branch for `v <= current.data`: on
     * reaching such a node it spins forever without writing anything. The
     * model reports that outcome as `returned == false` and stops there.
     */
    method Insert(v: int) returns (returned: bool)
      requires Valid()
      modifies this`root, this`spine, this`values, this`Repr, spine`right
      ensures Valid() && fresh(Repr - old(Repr))
      ensures returned <==> AboveLast(old(values), v)
      ensures returned ==> values == old(values) + [v]
      ensures returned ==> |spine| == |old(spine)| + 1 && spine[..|old(spine)|] == old(spine)
      ensures returned ==> fresh(spine[|spine| - 1]) && (old(root) != null ==> root == old(root))
      ensures !returned ==> root == old(root) && spine == old(spine) && values == old(values)
    {
      if root == null {
        root := new Node(v);
        spine, values, Repr := [root], [v], Repr + {root};
        return true;
      }
      var current := root;
      ghost var k := 0;
      while true
        invariant Valid() && root == old(root) && spine == old(spine) && Repr == old(Repr)
        invariant values == old(values)
        invariant k < |spine| && current == spine[k]
        decreases |spine| - k
      {
        if v > current.data {
          if current.right == null {
            NilRightMarksLast(k);
            var _ := Attach(current, k, v);
            return true;
          }
          current, k := current.right, k + 1;
          continue;
        }
        // no branch of the source handles v <= current.data: it never returns
        if k < |spine| - 1 {
          SpineIncreasing(k, |spine| - 1);
        }
        return false;
      }
    }
  }

  /**
   * The first three insertions of the repository's first tree test: 1337,
   * 2000 and 3000 each land at the end of the spine, and the traversal lists
   * them in order.
   */
  method InsertExample() returns (returned: seq<bool>, traversal: seq<int>)
    ensures returned == [true, true, true]
    ensures traversal == [1337, 2000, 3000]
  {
    var t := new Tree();
    var a := t.Insert(1337);
    var b := t.Insert(2000);
    var c := t.Insert(3000);
    assert t.values == [1337, 2000, 3000];
    t.InOrderSorted();
    traversal := InOrder(t.root, t.Repr);
    returned := [a, b, c];
  }

  /**
   * The fourth insertion of that test: 2500 is not above 3000, the last spine
   * value, so the loop meets a node it has no branch for and never returns.
   */
  method InsertStallExample() returns (returned: seq<bool>)
    ensures returned == [true, true, true, false]
  {
    var t := new Tree();
    var a := t.Insert(1337);
    var b := t.Insert(2000);
    var c := t.Insert(3000);
    var d := t.Insert(2500);
    returned := [a, b, c, d];
  }
}
