/**
 * The AVL class of AVL.java on the heap: nodes whose `left`, `right` and
 * `height` fields are updated in place, and the tree object whose `root`,
 * `trail1` and `trail2` fields `insert` and `addNode` reassign. Every
 * method is proved against the functional model in module AvlSpec.
 */
module Avl {
  import S = AvlSpec

  class Node {
    const value: int
    var height: int
    var left: Node?
    var right: Node?

    /** The nodes of the subtree rooted here. */
    ghost var Repr: set<Node>
    /** The subtree rooted here, with every cached height as stored. */
    ghost var Model: S.Tree

    /** A finite tree whose two subtrees are disjoint, with Model built from the children's models. */
    ghost predicate Valid()
      reads this, Repr
      decreases Repr
    {
      (left != null ==> left in Repr) && (right != null ==> right in Repr) &&
      Repr == {this} + ReprOf(left) + ReprOf(right) &&
      this !in ReprOf(left) + ReprOf(right) && ReprOf(left) !! ReprOf(right) &&
      (left != null ==> left.Valid()) && (right != null ==> right.Valid()) &&
      Model == S.Node(ModelOf(left), value, height, ModelOf(right))
    }

    /** The Node constructor: height 1 and no children. */
    constructor (value: int)
      ensures Valid() && Repr == {this}
      ensures Model == S.Leaf(value)
    {
      this.value := value;
      height := 1;
      left := null;
      right := null;
      Repr := {this};
      Model := S.Leaf(value);
    }
  }

  /** The children of n are valid, disjoint subtrees that do not contain n. */
  ghost predicate ChildrenValid(n: Node)
    reads n, n.left, n.right, ReprOf(n.left), ReprOf(n.right)
  {
    (n.left != null ==> n.left.Valid() && n !in n.left.Repr) &&
    (n.right != null ==> n.right.Valid() && n !in n.right.Repr) &&
    (n.left != null && n.right != null ==> n.left.Repr !! n.right.Repr)
  }

  /** x and y are absent or valid, and their subtrees are disjoint. */
  ghost predicate Forest(x: Node?, y: Node?)
    reads x, y, ReprOf(x), ReprOf(y)
  {
    (x != null ==> x.Valid()) && (y != null ==> y.Valid()) && ReprOf(x) !! ReprOf(y)
  }

  lemma ValidChildren(n: Node)
    requires n.Valid()
    ensures ChildrenValid(n)
  {
  }

  ghost function ReprOf(n: Node?): set<Node>
    reads n
  {
    if n == null then {} else n.Repr
  }

  ghost function ModelOf(n: Node?): S.Tree
    reads n
  {
    if n == null then S.Nil else n.Model
  }

  /** getNodeHeight: the cached height of a node, 0 for null. */
  function NodeHeight(n: Node?): (h: int)
    requires n != null ==> n.Valid()
    reads if n == null then {} else {n} + n.Repr
    ensures h == S.NodeHeight(ModelOf(n))
  {
    if n == null then 0 else n.height
  }

  /** getNodeValue: the key of a node, -1 for null. */
  function NodeValue(n: Node?): int {
    if n == null then S.Null else n.value
  }

  /** On a valid node getNodeValue reports the key of the subtree it stands for, and the sentinel for an absent one. */
  lemma NodeValueOfModel(n: Node?)
    requires n != null ==> n.Valid()
    ensures NodeValue(n) == S.NodeValue(ModelOf(n))
  {
  }

  class AvlTree {
    var root: Node?
    var trail1: Node?
    var trail2: Node?

    ghost var Repr: set<object>

    /** The tree object owns the nodes under root, and the tree they form is an AVL tree. */
    ghost predicate Valid()
      reads this, Repr
    {
      this in Repr &&
      (root != null ==> root in Repr && root.Repr <= Repr && root.Valid()) &&
      Repr == {this} + ReprOf(root) &&
      S.IsAvl(Contents())
    }

    /** The tree the nodes under root form. */
    ghost function Contents(): S.Tree
      reads this, root
    {
      ModelOf(root)
    }

    /** The trail fields as the values getNodeValue reports for them. */
    function Trail(): S.Trail
      reads this
    {
      S.Trail(NodeValue(trail1), NodeValue(trail2))
    }

    /** The AVL constructor: an empty tree and no trail. */
    constructor ()
      ensures Valid() && fresh(Repr)
      ensures Contents() == S.Nil && Trail() == S.NoTrail
    {
      root := null;
      trail1 := null;
      trail2 := null;
      Repr := {this};
    }

    /** insert: add the value unless it is already present; the tree stays AVL. */
    method Insert(value: int)
      requires Valid()
      modifies Repr
      ensures Valid() && fresh(Repr - old(Repr))
      ensures var s := S.Add(old(Contents()), value, old(Trail()));
              Contents() == s.tree && Trail() == s.trail
      ensures S.Keys(Contents()) == S.Keys(old(Contents())) + {value}
    {
      root := AddNode(root, value);
      Repr := {this} + root.Repr;
    }

    /** getTreeHeight: the cached height of the root, which is the true height of the tree. */
    method GetTreeHeight() returns (h: int)
      requires Valid()
      ensures h == S.Height(Contents())
    {
      h := NodeHeight(root);
      S.CachedHeight(Contents());
    }

    /** addNode: insert below `node`, rebalancing and moving the trail on the way back up. */
    method AddNode(node: Node?, value: int) returns (r: Node)
      requires node != null ==> node.Valid() && S.IsAvl(node.Model)
      modifies this`trail1, this`trail2, ReprOf(node)
      ensures r.Valid() && fresh(r.Repr - old(ReprOf(node)))
      ensures var s := S.Add(old(ModelOf(node)), value, old(Trail()));
              r.Model == s.tree && Trail() == s.trail
      decreases ReprOf(node), 1
    {
      if node == null {
        r := new Node(value);
        trail2 := null;
        trail1 := r;
      } else if node.value > value {
        r := AddLeft(node, value);
      } else if node.value < value {
        r := AddRight(node, value);
      } else {
        r := node;
      }
    }

    /** The `node.value > value` branch of addNode. */
    method AddLeft(node: Node, value: int) returns (r: Node)
      requires node.Valid() && S.IsAvl(node.Model) && node.value > value
      modifies this`trail1, this`trail2, node.Repr
      ensures r.Valid() && fresh(r.Repr - old(node.Repr))
      ensures var s := S.Add(old(node.Model), value, old(Trail()));
              r.Model == s.tree && Trail() == s.trail
      decreases node.Repr, 0
    {
      ghost var t, st := node.Model, S.Add(node.Model.left, value, Trail());
      assert S.Add(t, value, Trail()) == S.LeftStep(t, value, st);
      assert node.Model.right == ModelOf(node.right) && node !in ReprOf(node.left) + ReprOf(node.right);
      var sub := AddNode(node.left, value);
      r := AttachLeft(node, sub, value, t, st);
    }

    /** The `node.value < value` branch of addNode. */
    method AddRight(node: Node, value: int) returns (r: Node)
      requires node.Valid() && S.IsAvl(node.Model) && node.value < value
      modifies this`trail1, this`trail2, node.Repr
      ensures r.Valid() && fresh(r.Repr - old(node.Repr))
      ensures var s := S.Add(old(node.Model), value, old(Trail()));
              r.Model == s.tree && Trail() == s.trail
      decreases node.Repr, 0
    {
      ghost var t, st := node.Model, S.Add(node.Model.right, value, Trail());
      assert S.Add(t, value, Trail()) == S.RightStep(t, value, st);
      assert node.Model.left == ModelOf(node.left) && node !in ReprOf(node.left) + ReprOf(node.right);
      var sub := AddNode(node.right, value);
      r := AttachRight(node, sub, value, t, st);
    }

    /**
     * The rest of the left branch once the level below returned sub:
     * `node.left := sub`, updateHeight, checkBalance and the new trail.
     * t is node's subtree before the insertion and st what inserting
     * into its left subtree produced.
     */
    method AttachLeft(node: Node, sub: Node, value: int, ghost t: S.Tree, ghost st: S.Step) returns (r: Node)
      requires Forest(sub, node.right) && node !in sub.Repr + ReprOf(node.right)
      requires t.Node? && S.IsAvl(t) && value < t.value && t.value == node.value && t.right == ModelOf(node.right)
      requires S.AddPost(t.left, value, st) && sub.Model == st.tree && Trail() == st.trail
      modifies this`trail1, this`trail2, node, sub.Repr, ReprOf(node.right)
      ensures r.Valid() && r.Repr == {node} + old(sub.Repr) + old(ReprOf(node.right))
      ensures var s := S.LeftStep(t, value, st); r.Model == s.tree && Trail() == s.trail
    {
      S.AddedLeft(t, value, st);
      LinkLeft(node, sub, {node} + sub.Repr + ReprOf(node.right),
               S.WithHeight(S.Node(st.tree, t.value, t.height, t.right)));
      r := FinishLeft(node);
    }

    /** The mirror image of AttachLeft for the right branch. */
    method AttachRight(node: Node, sub: Node, value: int, ghost t: S.Tree, ghost st: S.Step) returns (r: Node)
      requires Forest(node.left, sub) && node !in ReprOf(node.left) + sub.Repr
      requires t.Node? && S.IsAvl(t) && t.value < value && t.value == node.value && t.left == ModelOf(node.left)
      requires S.AddPost(t.right, value, st) && sub.Model == st.tree && Trail() == st.trail
      modifies this`trail1, this`trail2, node, sub.Repr, ReprOf(node.left)
      ensures r.Valid() && r.Repr == {node} + old(ReprOf(node.left)) + old(sub.Repr)
      ensures var s := S.RightStep(t, value, st); r.Model == s.tree && Trail() == s.trail
    {
      S.AddedRight(t, value, st);
      LinkRight(node, sub, {node} + ReprOf(node.left) + sub.Repr,
                S.WithHeight(S.Node(t.left, t.value, t.height, st.tree)));
      r := FinishRight(node);
    }

    /** The end of the left branch of addNode: checkBalance with the trail fields, then `trail1 := node` and `trail2 := node.left`. */
    method FinishLeft(node: Node) returns (r: Node)
      requires node.Valid()
      requires S.Unbalanced(node.Model) ==> S.Fits(node.Model, S.Choose(node.value, NodeValue(trail1), NodeValue(trail2)))
      modifies this`trail1, this`trail2, node.Repr
      ensures r.Valid() && r.Repr == old(node.Repr)
      ensures var m := S.Rebalance(old(node.Model), old(Trail())); r.Model == m && Trail() == S.Trail(m.value, S.NodeValue(m.left))
    {
      r := CheckBalance(node, trail1, trail2);
      trail1 := r;
      trail2 := r.left;
    }

    /** The end of the right branch of addNode: checkBalance, then `trail1 := node` and `trail2 := node.right`. */
    method FinishRight(node: Node) returns (r: Node)
      requires node.Valid()
      requires S.Unbalanced(node.Model) ==> S.Fits(node.Model, S.Choose(node.value, NodeValue(trail1), NodeValue(trail2)))
      modifies this`trail1, this`trail2, node.Repr
      ensures r.Valid() && r.Repr == old(node.Repr)
      ensures var m := S.Rebalance(old(node.Model), old(Trail())); r.Model == m && Trail() == S.Trail(m.value, S.NodeValue(m.right))
    {
      r := CheckBalance(node, trail1, trail2);
      trail1 := r;
      trail2 := r.right;
    }

    /** checkBalance: rotate when the cached heights of the children differ by more than one. */
    method CheckBalance(node: Node, t1: Node?, t2: Node?) returns (r: Node)
      requires node.Valid()
      requires S.Unbalanced(node.Model) ==> S.Fits(node.Model, S.Choose(node.value, NodeValue(t1), NodeValue(t2)))
      modifies node.Repr
      ensures r.Valid() && r.Repr == old(node.Repr)
      ensures r.Model == S.Rebalance(old(node.Model), S.Trail(NodeValue(t1), NodeValue(t2)))
      ensures !S.Unbalanced(old(node.Model)) ==> r == node
    {
      var lh, rh := NodeHeight(node.left), NodeHeight(node.right);
      r := node;
      if lh - rh > 1 || lh - rh < -1 {
        var v, v1, v2 := NodeValue(node), NodeValue(t1), NodeValue(t2);
        if v < v1 && v1 < v2 {
          r := AbcRotation(node);
        } else if v > v1 && v1 > v2 {
          r := CbaRotation(node);
        } else if v < v1 && v1 > v2 {
          r := AcbRotation(node);
        } else {
          r := CabRotation(node);
        }
      }
    }

    // The rotations below make the same assignments and the same three
    // updateHeight calls (a, then c, then b) as the Java methods. Each
    // updateHeight(x) is made as soon as the child links of x are final
    // rather than after all of them: it reads nothing but x's children and
    // their heights, so the resulting nodes are identical.

    /** ABCRotation: a's right child b becomes the root, with a on its left and c on its right. */
    method AbcRotation(node: Node) returns (r: Node)
      requires node.Valid() && S.Fits(node.Model, S.Abc)
      modifies node, node.right, node.right.right
      ensures r.Valid() && r.Repr == old(node.Repr)
      ensures r.Model == S.RotAbc(old(node.Model))
    {
      var a := node;
      var b := a.right;
      var c := b.right;
      assert b.Valid() && c.Valid();
      LinkRight(a, b.left, {a} + ReprOf(a.left) + ReprOf(b.left),
                S.WithHeight(S.Node(ModelOf(a.left), a.value, 0, ModelOf(b.left))));
      AbcTail(b, a, old(node.Repr), S.RotAbc(old(node.Model)));
      r := b;
    }

    /** The rest of ABCRotation once a is valid again: updateHeight(c), then `b.left := a` and updateHeight(b). */
    method AbcTail(b: Node, a: Node, ghost fam: set<Node>, ghost m: S.Tree)
      requires a.Valid() && b.right != null && b.right.Valid()
      requires b !in a.Repr && b !in b.right.Repr && a.Repr !! b.right.Repr
      requires fam == {b} + a.Repr + b.right.Repr
      requires m == S.WithHeight(S.Node(a.Model, b.value, 0, S.WithHeight(b.right.Model)))
      modifies b`left, b`height, b`Repr, b`Model, b.right`height, b.right`Repr, b.right`Model
      ensures b.Valid() && b.Repr == fam && b.Model == m
    {
      var c := b.right;
      ValidChildren(c);
      UpdateHeight(c);
      LinkLeft(b, a, fam, m);
    }

    /** CBARotation: c's left child b becomes the root, with a on its left and c on its right. */
    method CbaRotation(node: Node) returns (r: Node)
      requires node.Valid() && S.Fits(node.Model, S.Cba)
      modifies node, node.left, node.left.left
      ensures r.Valid() && r.Repr == old(node.Repr)
      ensures r.Model == S.RotCba(old(node.Model))
    {
      var c := node;
      var b := c.left;
      var a := b.left;
      assert b.Valid() && a.Valid();
      LinkLeft(c, b.right, {c} + ReprOf(b.right) + ReprOf(c.right),
               S.WithHeight(S.Node(ModelOf(b.right), c.value, 0, ModelOf(c.right))));
      CbaTail(b, a, c, old(node.Repr), S.RotCba(old(node.Model)));
      r := b;
    }

    /** The rest of CBARotation once c is valid again: updateHeight(a), then `b.right := c` and updateHeight(b). */
    method CbaTail(b: Node, a: Node, c: Node, ghost fam: set<Node>, ghost m: S.Tree)
      requires b.left == a && a.Valid() && c.Valid()
      requires b !in a.Repr && b !in c.Repr && a.Repr !! c.Repr
      requires fam == {b} + a.Repr + c.Repr
      requires m == S.WithHeight(S.Node(S.WithHeight(a.Model), b.value, 0, c.Model))
      modifies b`right, b`height, b`Repr, b`Model, a`height, a`Repr, a`Model
      ensures b.Valid() && b.Repr == fam && b.Model == m
    {
      ValidChildren(a);
      UpdateHeight(a);
      LinkRight(b, c, fam, m);
    }

    /** ACBRotation: b, the left child of a's right child c, becomes the root over a and c. */
    method AcbRotation(node: Node) returns (r: Node)
      requires node.Valid() && S.Fits(node.Model, S.Acb)
      modifies node, node.right, node.right.left
      ensures r.Valid() && r.Repr == old(node.Repr)
      ensures r.Model == S.RotAcb(old(node.Model))
    {
      var a := node;
      var c := node.right;
      var b := c.left;
      assert c.Valid() && b.Valid();
      var w, x, y, z := a.left, b.left, b.right, c.right;
      ghost var fa := {a} + ReprOf(w) + ReprOf(x);
      ghost var fc := {c} + ReprOf(y) + ReprOf(z);
      ghost var ma := S.WithHeight(S.Node(ModelOf(w), a.value, 0, ModelOf(x)));
      ghost var mc := S.WithHeight(S.Node(ModelOf(y), c.value, 0, ModelOf(z)));
      S.AcbShape(node.Model);
      DoubleRotate(a, b, c, w, x, y, z, fa, fc, ma, mc, old(node.Repr), S.RotAcb(old(node.Model)));
      r := b;
    }

    /** CABRotation: b, the right child of c's left child a, becomes the root over a and c. */
    method CabRotation(node: Node) returns (r: Node)
      requires node.Valid() && S.Fits(node.Model, S.Cab)
      modifies node, node.left, node.left.right
      ensures r.Valid() && r.Repr == old(node.Repr)
      ensures r.Model == S.RotCab(old(node.Model))
    {
      var c := node;
      var a := c.left;
      var b := a.right;
      assert a.Valid() && b.Valid();
      var w, x, y, z := a.left, b.left, b.right, c.right;
      ghost var fa := {a} + ReprOf(w) + ReprOf(x);
      ghost var fc := {c} + ReprOf(y) + ReprOf(z);
      ghost var ma := S.WithHeight(S.Node(ModelOf(w), a.value, 0, ModelOf(x)));
      ghost var mc := S.WithHeight(S.Node(ModelOf(y), c.value, 0, ModelOf(z)));
      S.CabShape(node.Model);
      DoubleRotate(a, b, c, w, x, y, z, fa, fc, ma, mc, old(node.Repr), S.RotCab(old(node.Model)));
      r := b;
    }

    /**
     * The shared body of ACBRotation and CABRotation: `a.right := b.left`,
     * `c.left := b.right`, `b.left := a`, `b.right := c`, each node updated
     * once its links are final; fa, fc, ma and mc are the footprints and
     * models a and c end up with.
     */
    method DoubleRotate(a: Node, b: Node, c: Node, w: Node?, x: Node?, y: Node?, z: Node?,
                        ghost fa: set<Node>, ghost fc: set<Node>, ghost ma: S.Tree, ghost mc: S.Tree,
                        ghost fam: set<Node>, ghost m: S.Tree)
      requires a.left == w && b.left == x && b.right == y && c.right == z
      requires Forest(w, x) && a !in ReprOf(w) + ReprOf(x) && fa == {a} + ReprOf(w) + ReprOf(x)
      requires Forest(y, z) && c !in ReprOf(y) + ReprOf(z) && fc == {c} + ReprOf(y) + ReprOf(z)
      requires b !in fa + fc && fa !! fc && fam == {b} + fa + fc
      requires ma == S.WithHeight(S.Node(ModelOf(w), a.value, 0, ModelOf(x)))
      requires mc == S.WithHeight(S.Node(ModelOf(y), c.value, 0, ModelOf(z)))
      requires m == S.WithHeight(S.Node(ma, b.value, 0, mc))
      modifies a`right, a`height, a`Repr, a`Model, c`left, c`height, c`Repr, c`Model
      modifies b`left, b`right, b`height, b`Repr, b`Model
      ensures b.Valid() && b.Repr == fam && b.Model == m
    {
      LinkRight(a, x, fa, ma);
      DoubleTail(b, a, c, y, z, fa, fc, ma, mc, fam, m);
    }

    /** DoubleRotate once a is valid again: `c.left := b.right` and updateHeight(c), then Hoist. */
    method DoubleTail(b: Node, a: Node, c: Node, y: Node?, z: Node?, ghost fa: set<Node>, ghost fc: set<Node>,
                      ghost ma: S.Tree, ghost mc: S.Tree, ghost fam: set<Node>, ghost m: S.Tree)
      requires a.Valid() && a.Repr == fa && a.Model == ma && a != c && b != c && b.right == y && c.right == z
      requires Forest(y, z) && c !in ReprOf(y) + ReprOf(z) && fc == {c} + ReprOf(y) + ReprOf(z)
      requires b !in fa + fc && fa !! fc && fam == {b} + fa + fc
      requires mc == S.WithHeight(S.Node(ModelOf(y), c.value, 0, ModelOf(z)))
      requires m == S.WithHeight(S.Node(ma, b.value, 0, mc))
      modifies c`left, c`height, c`Repr, c`Model, b`left, b`right, b`height, b`Repr, b`Model
      ensures b.Valid() && b.Repr == fam && b.Model == m
    {
      LinkLeft(c, y, fc, mc);
      Hoist(b, a, c, fam, m);
    }

    /** The end of ACBRotation and CABRotation: `b.left := a`, `b.right := c` and updateHeight(b). */
    method Hoist(b: Node, a: Node, c: Node, ghost fam: set<Node>, ghost m: S.Tree)
      requires a.Valid() && c.Valid() && b !in a.Repr && b !in c.Repr && a.Repr !! c.Repr
      requires fam == {b} + a.Repr + c.Repr
      requires m == S.WithHeight(S.Node(a.Model, b.value, 0, c.Model))
      modifies b`left, b`right, b`height, b`Repr, b`Model
      ensures b.Valid() && b.Repr == fam && b.Model == m
    {
      b.left := a;
      LinkRight(b, c, fam, m);
    }

    /** `n.left := x` followed by updateHeight(n): n is valid again, over x and its old right subtree. */
    method LinkLeft(n: Node, x: Node?, ghost fam: set<Node>, ghost m: S.Tree)
      requires Forest(x, n.right) && n !in ReprOf(x) + ReprOf(n.right)
      requires fam == {n} + ReprOf(x) + ReprOf(n.right)
      requires m == S.WithHeight(S.Node(ModelOf(x), n.value, 0, ModelOf(n.right)))
      modifies n`left, n`height, n`Repr, n`Model
      ensures n.left == x && n.Valid() && n.Repr == fam && n.Model == m
    {
      n.left := x;
      UpdateHeight(n);
    }

    /** `n.right := x` followed by updateHeight(n): n is valid again, over its old left subtree and x. */
    method LinkRight(n: Node, x: Node?, ghost fam: set<Node>, ghost m: S.Tree)
      requires Forest(n.left, x) && n !in ReprOf(n.left) + ReprOf(x)
      requires fam == {n} + ReprOf(n.left) + ReprOf(x)
      requires m == S.WithHeight(S.Node(ModelOf(n.left), n.value, 0, ModelOf(x)))
      modifies n`right, n`height, n`Repr, n`Model
      ensures n.right == x && n.Valid() && n.Repr == fam && n.Model == m
    {
      n.right := x;
      UpdateHeight(n);
    }

    /** updateHeight: one more than the larger cached height of the children. */
    method UpdateHeight(node: Node)
      requires ChildrenValid(node)
      modifies node`height, node`Repr, node`Model
      ensures node.Valid() && node.Repr == {node} + old(ReprOf(node.left)) + old(ReprOf(node.right))
      ensures node.Model == S.WithHeight(S.Node(old(ModelOf(node.left)), node.value, 0, old(ModelOf(node.right))))
    {
      node.height := S.Max(NodeHeight(node.left), NodeHeight(node.right)) + 1;
      node.Repr := {node} + ReprOf(node.left) + ReprOf(node.right);
      node.Model := S.Node(ModelOf(node.left), node.value, node.height, ModelOf(node.right));
    }
  }
}
