/**
 * The RedBlack class of RedBlack.java on the heap: nodes whose `left`,
 * `right`, `parent`, `height` and `colour` fields are updated in place, and
 * the tree object whose `root`, `trail`, `violation`, `abc`, `cba`, `acb`
 * and `cab` fields `insert` and `addNode` reassign. Every method is proved
 * against the functional model in module RedBlackSpec.
 */
module RedBlack {
  import S = RedBlackSpec

  class Node {
    const value: int
    var height: int
    var colour: S.Colour
    var parent: Node?
    var left: Node?
    var right: Node?

    /** The nodes of the subtree rooted here. */
    ghost var Repr: set<Node>
    /** The subtree rooted here, with every cached height and colour as stored. */
    ghost var Model: S.Tree

    /**
     * A finite tree whose two subtrees are disjoint, whose children point
     * back at this node through `parent`, with Model built from the
     * children's models. The node's own `parent` is its caller's business.
     */
    ghost predicate Valid()
      reads this, Repr
      decreases Repr
    {
      (left != null ==> left in Repr) && (right != null ==> right in Repr) &&
      Repr == {this} + ReprOf(left) + ReprOf(right) &&
      this !in ReprOf(left) + ReprOf(right) && ReprOf(left) !! ReprOf(right) &&
      (left != null ==> left.parent == this && left.Valid()) &&
      (right != null ==> right.parent == this && right.Valid()) &&
      Model == S.Node(ModelOf(left), value, height, colour, ModelOf(right))
    }

    /** The Node constructor: red, height 1, no children, and the given parent. */
    constructor (value: int, parent: Node?)
      ensures Valid() && Repr == {this} && this.parent == parent
      ensures Model == S.Fresh(value)
    {
      this.value := value;
      height := 1;
      colour := S.Red;
      this.parent := parent;
      left := null;
      right := null;
      Repr := {this};
      Model := S.Fresh(value);
    }
  }

  /** The node itself as a set, empty for null. */
  function Only(n: Node?): set<Node> {
    if n == null then {} else {n}
  }

  ghost function ReprOf(n: Node?): set<Node>
    reads n
  {
    if n == null then {} else n.Repr
  }

  ghost function ModelOf(n: Node?): S.Tree
    reads n
  {
    if n == null then S.Nil else n.Model
  }

  /** The children of n are valid, disjoint subtrees that do not contain n and point back at it. */
  ghost predicate ChildrenValid(n: Node)
    reads n, n.left, n.right, ReprOf(n.left), ReprOf(n.right)
  {
    (n.left != null ==> n.left.Valid() && n !in n.left.Repr && n.left.parent == n) &&
    (n.right != null ==> n.right.Valid() && n !in n.right.Repr && n.right.parent == n) &&
    ReprOf(n.left) !! ReprOf(n.right)
  }

  /** x and y are absent or valid, and their subtrees are disjoint. */
  ghost predicate Forest(x: Node?, y: Node?)
    reads x, y, ReprOf(x), ReprOf(y)
  {
    (x != null ==> x.Valid()) && (y != null ==> y.Valid()) && ReprOf(x) !! ReprOf(y)
  }

  /** getNodeHeight: the cached height of a node, 0 for null. */
  function NodeHeight(n: Node?): (h: int)
    requires n != null ==> n.Valid()
    reads if n == null then {} else {n} + n.Repr
    ensures h == S.NodeHeight(ModelOf(n))
  {
    if n == null then 0 else n.height
  }

  /** getNodeColour: the colour of a node, black for null. */
  function NodeColour(n: Node?): (c: S.Colour)
    requires n != null ==> n.Valid()
    reads if n == null then {} else {n} + n.Repr
    ensures c == S.NodeColour(ModelOf(n))
  {
    if n == null then S.Black else n.colour
  }

  /** getNodeValue: the key of a node, -1 for null. */
  function NodeValue(n: Node?): int {
    if n == null then S.Null else n.value
  }

  /** On a valid node getNodeValue reports the key of the subtree it stands for, and the sentinel for an absent one. */
  lemma NodeValueOfModel(n: Node?)
    requires n != null ==> n.Valid()
    ensures NodeValue(n) == S.NodeValue(ModelOf(n))
  {
  }

  /** What addNode sees through `node.parent`: no parent, or the parent's key and the colour of the sibling subtree sm. */
  ghost function Above(g: Node?, sm: S.Tree): S.Up {
    if g == null then S.Root else S.Below(g.value, S.NodeColour(sm))
  }

  /**
   * g is the parent a subtree with these keys hangs below, and sib is g's
   * child on the other side: its right child when the keys are smaller
   * than g's, its left child when they are larger.
   */
  ghost predicate Side(keys: set<int>, g: Node, sib: Node?)
    reads g
  {
    (g.right == sib && forall k | k in keys :: k < g.value) ||
    (g.left == sib && forall k | k in keys :: k > g.value)
  }

  /**
   * The parent g (of colour gc) and the sibling sib (a valid subtree whose
   * model is sm) lie outside the subtree `node`, which may be absent.
   */
  ghost predicate Family(node: Node?, g: Node?, sib: Node?, gc: S.Colour, sm: S.Tree)
    reads node, g, sib, ReprOf(sib)
  {
    (g == null ==> sib == null) &&
    (g != null ==> g !in ReprOf(node) + ReprOf(sib) && g.colour == gc) &&
    (sib != null ==> sib.Valid()) && ReprOf(node) !! ReprOf(sib) && sm == ModelOf(sib)
  }

  /**
   * The writes addNode makes through `node.parent`: when rec, the parent
   * turned red and the sibling black; otherwise both are as they were (gc
   * and sm).
   */
  ghost predicate After(g: Node?, sib: Node?, gc: S.Colour, sm: S.Tree, rec: bool)
    reads g, sib, ReprOf(sib)
  {
    (g != null ==> g.colour == if rec then S.Red else gc) &&
    (sib != null ==> sib.Valid()) &&
    (rec ==> sm.Node? && ModelOf(sib) == S.Paint(sm, S.Black)) && (!rec ==> ModelOf(sib) == sm)
  }

  class RedBlackTree {
    var root: Node?
    var trail: Node?
    var violation: bool
    var abc: bool
    var cba: bool
    var acb: bool
    var cab: bool

    ghost var Repr: set<object>

    /**
     * The tree object owns the nodes under root; the root has no parent and
     * is black, the keys are in search-tree order, every cached height is
     * right, and no flag is left raised between two calls of insert.
     */
    ghost predicate Valid()
      reads this, Repr
    {
      this in Repr &&
      (root != null ==> root in Repr && root.Repr <= Repr && root.Valid() && root.parent == null) &&
      (root == null ==> trail == null) &&
      Repr == {this} + ReprOf(root) &&
      S.Ordered(Contents()) && S.Cached(Contents()) && S.NodeColour(Contents()) == S.Black &&
      Flags() == S.Clear
    }

    /** The tree the nodes under root form. */
    ghost function Contents(): S.Tree
      reads this, root
    {
      ModelOf(root)
    }

    /** The five boolean fields. */
    function Flags(): S.Flags
      reads this
    {
      S.Flags(violation, abc, cba, acb, cab)
    }

    /** The RedBlack constructor: an empty tree, no trail and every flag false. */
    constructor ()
      ensures Valid() && fresh(Repr)
      ensures Contents() == S.Nil
    {
      root := null;
      trail := null;
      violation := false;
      abc := false;
      cba := false;
      acb := false;
      cab := false;
      Repr := {this};
    }

    /**
     * insert: addNode below the root, then paint the new root black. The keys
     * grow by the value, and the tree is the functional model's Insert.
     */
    method Insert(value: int)
      requires Valid()
      modifies Repr
      ensures Valid() && fresh(Repr - old(Repr))
      ensures Contents() == S.Insert(old(Contents()), value)
      ensures S.Keys(Contents()) == S.Keys(old(Contents())) + {value}
    {
      var r := AddNode(root, value, null, null, S.Black, S.Nil);
      Plant(r);
    }

    /** `root := r` and `root.colour := 'b'`, for a subtree r without parent that holds every node of the tree. */
    method Plant(r: Node)
      requires r.Valid() && r.parent == null
      requires S.Ordered(r.Model) && S.Cached(r.Model) && Flags() == S.Clear
      modifies this`root, this`Repr, r`colour, r`Model
      ensures Valid() && Repr == {this} + old(r.Repr) && Contents() == S.Paint(old(r.Model), S.Black)
    {
      root := r;
      Paint(r, S.Black);
      Repr := {this} + r.Repr;
    }

    /** getTreeHeight: the cached height of the root, which is the true height of the tree. */
    method GetTreeHeight() returns (h: int)
      requires Valid()
      ensures h == S.Height(Contents())
    {
      h := NodeHeight(root);
      S.CachedHeight(Contents());
    }

    // ----- updateHeight, links and colour writes -----

    /** updateHeight: one more than the larger cached height of the children. */
    method UpdateHeight(node: Node)
      requires ChildrenValid(node)
      modifies node`height, node`Repr, node`Model
      ensures node.Valid() && node.Repr == {node} + old(ReprOf(node.left)) + old(ReprOf(node.right))
      ensures node.Model ==
              S.WithHeight(S.Node(old(ModelOf(node.left)), node.value, 0, node.colour, old(ModelOf(node.right))))
    {
      node.height := S.Max(NodeHeight(node.left), NodeHeight(node.right)) + 1;
      node.Repr := {node} + ReprOf(node.left) + ReprOf(node.right);
      node.Model := S.Node(ModelOf(node.left), node.value, node.height, node.colour, ModelOf(node.right));
    }

    /** `n.left := x`, `x.parent := n` when x is present, then updateHeight(n). */
    method LinkLeft(n: Node, x: Node?, ghost fam: set<Node>, ghost m: S.Tree)
      requires Forest(x, n.right) && n !in ReprOf(x) + ReprOf(n.right)
      requires n.right != null ==> n.right.parent == n
      requires fam == {n} + ReprOf(x) + ReprOf(n.right)
      requires m == S.WithHeight(S.Node(ModelOf(x), n.value, 0, n.colour, ModelOf(n.right)))
      modifies n`left, n`height, n`Repr, n`Model, Only(x)`parent
      ensures n.left == x && n.Valid() && n.Repr == fam && n.Model == m
    {
      n.left := x;
      if x != null {
        x.parent := n;
      }
      UpdateHeight(n);
    }

    /** `n.right := x`, `x.parent := n` when x is present, then updateHeight(n). */
    method LinkRight(n: Node, x: Node?, ghost fam: set<Node>, ghost m: S.Tree)
      requires Forest(n.left, x) && n !in ReprOf(n.left) + ReprOf(x)
      requires n.left != null ==> n.left.parent == n
      requires fam == {n} + ReprOf(n.left) + ReprOf(x)
      requires m == S.WithHeight(S.Node(ModelOf(n.left), n.value, 0, n.colour, ModelOf(x)))
      modifies n`right, n`height, n`Repr, n`Model, Only(x)`parent
      ensures n.right == x && n.Valid() && n.Repr == fam && n.Model == m
    {
      n.right := x;
      if x != null {
        x.parent := n;
      }
      UpdateHeight(n);
    }

    // ----- addNode -----

    /**
     * What one level of addNode leaves behind when it computes the step s
     * below the parent g with sibling sib: the subtree r, hanging below g,
     * with s's tree and flags, and g and sib as After says.
     */
    ghost predicate Result(r: Node, s: S.Step, g: Node?, sib: Node?, gc: S.Colour, sm: S.Tree)
      reads this, r, r.Repr, g, sib, ReprOf(sib)
    {
      r.Valid() && r.parent == g && r.Model == s.tree && Flags() == s.flags && After(g, sib, gc, sm, s.recoloured)
    }

    /**
     * addNode(node, value) below the parent g, whose colour is gc and whose
     * other child is sib, with model sm; g is `node.parent`, or `trail`
     * when node is absent. Returns the new subtree, whose `parent` is g;
     * the flags and the colours of g and sib are left as the functional
     * model says.
     */
    method AddNode(node: Node?, value: int, ghost g: Node?, ghost sib: Node?, ghost gc: S.Colour, ghost sm: S.Tree)
      returns (r: Node)
      requires node != null ==> node.Valid() && node.parent == g
      requires node == null ==> trail == g
      requires Family(node, g, sib, gc, sm) && (g != null ==> Side(S.Keys(ModelOf(node)) + {value}, g, sib))
      requires S.Ordered(ModelOf(node)) && S.Beside(ModelOf(node), value, Above(g, sm)) && Flags() == S.Clear
      modifies this`trail, this`violation, this`abc, this`cba, this`acb, this`cab, ReprOf(node)
      modifies Only(g)`colour, Only(sib)`colour, Only(sib)`Model
      ensures fresh(r.Repr - old(ReprOf(node)))
      ensures Result(r, S.AddNode(old(ModelOf(node)), value, Above(g, sm)), g, sib, gc, sm)
      decreases ReprOf(node), 4
    {
      if node == null {
        r := AddHere(value, g, sib, gc, sm);
      } else if node.value > value {
        r := DownLeft(node, value, g, sib, gc, sm);
      } else if node.value < value {
        r := DownRight(node, value, g, sib, gc, sm);
      } else {
        S.AddedAtLevel(node.Model, value, Above(g, sm), S.State(node.Model, Flags()));
        r := Level(node, g, sib, gc, sm);
      }
    }

    /** The `node == null` branch of addNode: a new red node whose parent is trail. */
    method AddHere(value: int, ghost g: Node?, ghost sib: Node?, ghost gc: S.Colour, ghost sm: S.Tree)
      returns (r: Node)
      requires trail == g
      requires Family(null, g, sib, gc, sm) && (g != null ==> Side({value}, g, sib))
      requires S.Beside(S.Nil, value, Above(g, sm)) && Flags() == S.Clear
      modifies this`violation, this`abc, this`cba, this`acb, this`cab
      modifies Only(g)`colour, Only(sib)`colour, Only(sib)`Model
      ensures fresh(r.Repr)
      ensures Result(r, S.AddNode(S.Nil, value, Above(g, sm)), g, sib, gc, sm)
    {
      r := new Node(value, trail);
      if sib != null {
        assert sib.Valid();
      }
      S.AddedAtLevel(S.Nil, value, Above(g, sm), S.State(r.Model, Flags()));
      r := Level(r, g, sib, gc, sm);
    }

    /** The `node.value > value` branch of addNode, from `trail := node` to the end. */
    method DownLeft(node: Node, value: int, ghost g: Node?, ghost sib: Node?, ghost gc: S.Colour, ghost sm: S.Tree)
      returns (r: Node)
      requires node.Valid() && node.parent == g && value < node.value
      requires Family(node, g, sib, gc, sm) && (g != null ==> Side(S.Keys(node.Model) + {value}, g, sib))
      requires S.Ordered(node.Model) && S.Beside(node.Model, value, Above(g, sm)) && Flags() == S.Clear
      modifies this`trail, this`violation, this`abc, this`cba, this`acb, this`cab, node.Repr
      modifies Only(g)`colour, Only(sib)`colour, Only(sib)`Model
      ensures fresh(r.Repr - old(node.Repr))
      ensures Result(r, S.AddNode(old(node.Model), value, Above(g, sm)), g, sib, gc, sm)
      decreases node.Repr, 3
    {
      ghost var t := node.Model;
      AddLeft(node, value, g, sib, gc, sm);
      assert S.AddNode(t, value, Above(g, sm)) == S.Level(S.State(node.Model, Flags()), Above(g, sm));
      r := Level(node, g, sib, gc, sm);
    }

    /** The `node.value < value` branch of addNode, from `trail := node` to the end. */
    method DownRight(node: Node, value: int, ghost g: Node?, ghost sib: Node?, ghost gc: S.Colour, ghost sm: S.Tree)
      returns (r: Node)
      requires node.Valid() && node.parent == g && node.value < value
      requires Family(node, g, sib, gc, sm) && (g != null ==> Side(S.Keys(node.Model) + {value}, g, sib))
      requires S.Ordered(node.Model) && S.Beside(node.Model, value, Above(g, sm)) && Flags() == S.Clear
      modifies this`trail, this`violation, this`abc, this`cba, this`acb, this`cab, node.Repr
      modifies Only(g)`colour, Only(sib)`colour, Only(sib)`Model
      ensures fresh(r.Repr - old(node.Repr))
      ensures Result(r, S.AddNode(old(node.Model), value, Above(g, sm)), g, sib, gc, sm)
      decreases node.Repr, 3
    {
      ghost var t := node.Model;
      AddRight(node, value, g, sib, gc, sm);
      assert S.AddNode(t, value, Above(g, sm)) == S.Level(S.State(node.Model, Flags()), Above(g, sm));
      r := Level(node, g, sib, gc, sm);
    }

    /**
     * The `node.value > value` branch of addNode up to the flag block:
     * `trail := node`, the insertion into the left subtree, the double-red
     * check and updateHeight.
     */
    method AddLeft(node: Node, value: int, ghost g: Node?, ghost sib: Node?, ghost gc: S.Colour, ghost sm: S.Tree)
      requires node.Valid() && node.parent == g && S.Ordered(node.Model) && value < node.value && Flags() == S.Clear
      requires Family(node, g, sib, gc, sm) && (g != null ==> Side(S.Keys(node.Model) + {value}, g, sib))
      modifies this`trail, this`violation, this`abc, this`cba, this`acb, this`cab, node.Repr
      ensures node.Valid() && fresh(node.Repr - old(node.Repr)) && node.parent == g
      ensures Family(node, g, sib, gc, sm) && (g != null ==> Side(S.Keys(node.Model), g, sib))
      ensures var t := old(node.Model);
              S.State(node.Model, Flags()) == S.LeftStep(t, value, S.AddNode(t.left, value, S.Below(t.value, S.NodeColour(t.right))))
      decreases node.Repr, 2
    {
      trail := node;
      DescendLeft(node, value);
      if sib != null {
        assert sib.Valid();
      }
    }

    /**
     * The insertion into the left subtree and the assignment of its result
     * to `node.left`, the double-red check and updateHeight, with
     * `trail == node` already set.
     */
    method DescendLeft(node: Node, value: int)
      requires node.Valid() && S.Ordered(node.Model) && value < node.value && Flags() == S.Clear && trail == node
      modifies this`trail, this`violation, this`abc, this`cba, this`acb, this`cab, node.Repr
      ensures node.Valid() && fresh(node.Repr - old(node.Repr)) && node.parent == old(node.parent)
      ensures var t := old(node.Model);
              S.State(node.Model, Flags()) == S.LeftStep(t, value, S.AddNode(t.left, value, S.Below(t.value, S.NodeColour(t.right))))
      decreases node.Repr, 1
    {
      ghost var t := node.Model;
      S.LeftCall(t, value);
      ghost var st := S.AddNode(t.left, value, S.Below(t.value, S.NodeColour(t.right)));
      ghost var rr := ReprOf(node.right);
      assert node.Repr == {node} + ReprOf(node.left) + rr;
      var sub := HookLeft(node, value);
      AttachLeft(node, sub, value, t, st);
    }

    /**
     * `addNode(node.left, value)` with node as the parent: the level below
     * may recolour node and its other child, and leaves everything else
     * of node alone.
     */
    method HookLeft(node: Node, value: int) returns (sub: Node)
      requires node.Valid() && S.Ordered(node.Model) && value < node.value && Flags() == S.Clear && trail == node
      modifies this`trail, this`violation, this`abc, this`cba, this`acb, this`cab, ReprOf(node.left)
      modifies node`colour, Only(node.right)`colour, Only(node.right)`Model
      ensures var t := old(node.Model); var st := S.AddNode(t.left, value, S.Below(t.value, S.NodeColour(t.right)));
        sub.Valid() && sub.parent == node && node !in sub.Repr && sub.Repr !! old(ReprOf(node.right)) &&
        sub.Model == st.tree && Flags() == st.flags && After(node, node.right, t.colour, t.right, st.recoloured)
      ensures fresh(sub.Repr - old(ReprOf(node.left))) && ReprOf(node.right) == old(ReprOf(node.right))
      decreases node.Repr, 0
    {
      ghost var t := node.Model;
      ghost var sib, sr := node.right, ReprOf(node.right);
      ghost var below := ReprOf(node.left);
      assert node.Repr == {node} + below + sr && node !in below + sr && below !! sr;
      sub := AddNode(node.left, value, node, sib, t.colour, t.right);
    }

    /** The mirror image of AddLeft for the `node.value < value` branch. */
    method AddRight(node: Node, value: int, ghost g: Node?, ghost sib: Node?, ghost gc: S.Colour, ghost sm: S.Tree)
      requires node.Valid() && node.parent == g && S.Ordered(node.Model) && node.value < value && Flags() == S.Clear
      requires Family(node, g, sib, gc, sm) && (g != null ==> Side(S.Keys(node.Model) + {value}, g, sib))
      modifies this`trail, this`violation, this`abc, this`cba, this`acb, this`cab, node.Repr
      ensures node.Valid() && fresh(node.Repr - old(node.Repr)) && node.parent == g
      ensures Family(node, g, sib, gc, sm) && (g != null ==> Side(S.Keys(node.Model), g, sib))
      ensures var t := old(node.Model);
              S.State(node.Model, Flags()) == S.RightStep(t, value, S.AddNode(t.right, value, S.Below(t.value, S.NodeColour(t.left))))
      decreases node.Repr, 2
    {
      trail := node;
      DescendRight(node, value);
      if sib != null {
        assert sib.Valid();
      }
    }

    /**
     * The insertion into the right subtree and the assignment of its result
     * to `node.right`, the double-red check and updateHeight, with
     * `trail == node` already set.
     */
    method DescendRight(node: Node, value: int)
      requires node.Valid() && S.Ordered(node.Model) && node.value < value && Flags() == S.Clear && trail == node
      modifies this`trail, this`violation, this`abc, this`cba, this`acb, this`cab, node.Repr
      ensures node.Valid() && fresh(node.Repr - old(node.Repr)) && node.parent == old(node.parent)
      ensures var t := old(node.Model);
              S.State(node.Model, Flags()) == S.RightStep(t, value, S.AddNode(t.right, value, S.Below(t.value, S.NodeColour(t.left))))
      decreases node.Repr, 1
    {
      ghost var t := node.Model;
      S.RightCall(t, value);
      ghost var st := S.AddNode(t.right, value, S.Below(t.value, S.NodeColour(t.left)));
      ghost var lr := ReprOf(node.left);
      assert node.Repr == {node} + lr + ReprOf(node.right);
      var sub := HookRight(node, value);
      AttachRight(node, sub, value, t, st);
    }

    /**
     * `addNode(node.right, value)` with node as the parent: the level below
     * may recolour node and its other child, and leaves everything else
     * of node alone.
     */
    method HookRight(node: Node, value: int) returns (sub: Node)
      requires node.Valid() && S.Ordered(node.Model) && node.value < value && Flags() == S.Clear && trail == node
      modifies this`trail, this`violation, this`abc, this`cba, this`acb, this`cab, ReprOf(node.right)
      modifies node`colour, Only(node.left)`colour, Only(node.left)`Model
      ensures var t := old(node.Model); var st := S.AddNode(t.right, value, S.Below(t.value, S.NodeColour(t.left)));
        sub.Valid() && sub.parent == node && node !in sub.Repr && sub.Repr !! old(ReprOf(node.left)) &&
        sub.Model == st.tree && Flags() == st.flags && After(node, node.left, t.colour, t.left, st.recoloured)
      ensures fresh(sub.Repr - old(ReprOf(node.right)))
      decreases node.Repr, 0
    {
      ghost var t := node.Model;
      ghost var sib, sr := node.left, ReprOf(node.left);
      ghost var below := ReprOf(node.right);
      assert node.Repr == {node} + below + sr && node !in below + sr && below !! sr;
      sub := AddNode(node.right, value, node, sib, t.colour, t.left);
    }

    /**
     * The rest of the left branch once the level below returned sub:
     * `node.left := sub`, the double-red check and updateHeight. t is
     * node's subtree before the insertion and st what inserting into its
     * left subtree produced; the level below may have recoloured node and
     * its right child.
     */
    method AttachLeft(node: Node, sub: Node, value: int, ghost t: S.Tree, ghost st: S.Step)
      requires sub.Valid() && sub.parent == node && (node.right != null ==> node.right.parent == node)
      requires node !in sub.Repr + ReprOf(node.right) && sub.Repr !! ReprOf(node.right)
      requires t.Node? && S.Ordered(t) && value < t.value && t.value == node.value
      requires S.AddPost(t.left, value, S.Below(t.value, S.NodeColour(t.right)), st)
      requires sub.Model == st.tree && Flags() == st.flags && After(node, node.right, t.colour, t.right, st.recoloured)
      modifies node`left, node`height, node`Repr, node`Model, this`violation
      ensures node.parent == old(node.parent)
      ensures node.Valid() && node.Repr == {node} + old(sub.Repr + ReprOf(node.right))
      ensures S.State(node.Model, Flags()) == S.LeftStep(t, value, st)
    {
      node.left := sub;
      CheckAndUpdate(node, true);
    }

    /** The mirror image of AttachLeft for the right branch. */
    method AttachRight(node: Node, sub: Node, value: int, ghost t: S.Tree, ghost st: S.Step)
      requires sub.Valid() && sub.parent == node && (node.left != null ==> node.left.parent == node)
      requires node !in sub.Repr + ReprOf(node.left) && sub.Repr !! ReprOf(node.left)
      requires t.Node? && S.Ordered(t) && t.value < value && t.value == node.value
      requires S.AddPost(t.right, value, S.Below(t.value, S.NodeColour(t.left)), st)
      requires sub.Model == st.tree && Flags() == st.flags && After(node, node.left, t.colour, t.left, st.recoloured)
      modifies node`right, node`height, node`Repr, node`Model, this`violation
      ensures node.parent == old(node.parent)
      ensures node.Valid() && node.Repr == {node} + old(ReprOf(node.left) + sub.Repr)
      ensures S.State(node.Model, Flags()) == S.RightStep(t, value, st)
    {
      node.right := sub;
      CheckAndUpdate(node, false);
    }

    /**
     * The double-red check after `node.left := ...` (leftSide) or
     * `node.right := ...`: `violation := true` when node and that child are
     * both red; then updateHeight(node).
     */
    method CheckAndUpdate(node: Node, leftSide: bool)
      requires ChildrenValid(node)
      modifies node`height, node`Repr, node`Model, this`violation
      ensures node.Valid() && node.Repr == {node} + old(ReprOf(node.left)) + old(ReprOf(node.right))
      ensures node.Model ==
              S.WithHeight(S.Node(old(ModelOf(node.left)), node.value, 0, node.colour, old(ModelOf(node.right))))
      ensures var child := if leftSide then node.Model.left else node.Model.right;
              Flags() == old(Flags()).(violation := old(violation) || (node.colour == S.Red && S.NodeColour(child) == S.Red))
    {
      var child := if leftSide then node.left else node.right;
      DoubleRed(node.colour, NodeColour(child));
      UpdateHeight(node);
    }

    /** `if (a == 'r' && b == 'r') violation = true;` */
    method DoubleRed(a: S.Colour, b: S.Colour)
      modifies this`violation
      ensures Flags() == old(Flags()).(violation := old(violation) || (a == S.Red && b == S.Red))
    {
      if a == S.Red && b == S.Red {
        violation := true;
      }
    }

    /** The end of addNode at every level: the flag block, then the violation block. */
    method Level(node: Node, ghost g: Node?, ghost sib: Node?, ghost gc: S.Colour, ghost sm: S.Tree) returns (r: Node)
      requires node.Valid() && node.parent == g && S.Ready(S.State(node.Model, Flags()))
      requires Family(node, g, sib, gc, sm) && (g != null ==> Side(S.Keys(node.Model), g, sib))
      modifies this`violation, this`abc, this`cba, this`acb, this`cab, node.Repr
      modifies Only(g)`colour, Only(sib)`colour, Only(sib)`Model
      ensures r.Repr == old(node.Repr)
      ensures Result(r, S.Level(S.State(old(node.Model), old(Flags())), Above(g, sm)), g, sib, gc, sm)
    {
      ghost var d := S.State(node.Model, Flags());
      r := ExecuteFlags(node);
      S.SameInOrder(r.Model, d.tree);
      assert r.value in S.Keys(r.Model);
      HandleViolation(r, g, sib, gc, sm);
    }

    /**
     * The flag block of addNode: the first raised rotation flag, in the
     * order abc, cba, acb, cab, paints the node red and its child on that
     * side black, rotates and clears its flag.
     */
    method ExecuteFlags(node: Node) returns (r: Node)
      requires node.Valid() && S.Ready(S.State(node.Model, Flags()))
      modifies this`abc, this`cba, this`acb, this`cab, node.Repr
      ensures r.Valid() && r.Repr == old(node.Repr) && r.parent == old(node.parent)
      ensures S.State(r.Model, Flags()) == S.Execute(S.State(old(node.Model), old(Flags())))
    {
      if abc {
        r := RunAbc(node);
      } else if cba {
        r := RunCba(node);
      } else if acb {
        r := RunAcb(node);
      } else if cab {
        r := RunCab(node);
      } else {
        r := node;
      }
    }

    /**
     * The abc case of the flag block: `abc := false` and the writes and
     * rotation of RepaintAbc. The flag is cleared first rather than last;
     * nothing in between reads it.
     */
    method RunAbc(node: Node) returns (r: Node)
      requires node.Valid() && node.Model.right.Node? && node.Model.right.right.Node?
      modifies this`abc, node.Repr
      ensures r.Valid() && r.Repr == old(node.Repr) && r.parent == old(node.parent)
      ensures r.Model == S.RotAbc(S.RedOverBlack(old(node.Model), true))
      ensures Flags() == old(Flags()).(abc := false)
    {
      abc := false;
      r := RepaintAbc(node);
    }

    /** `node.colour := 'r'`, `node.right.colour := 'b'`, then ABCRotation. */
    method RepaintAbc(node: Node) returns (r: Node)
      requires node.Valid() && node.Model.right.Node? && node.Model.right.right.Node?
      modifies node.Repr
      ensures r.Valid() && r.Repr == old(node.Repr) && r.parent == old(node.parent)
      ensures r.Model == S.RotAbc(S.RedOverBlack(old(node.Model), true))
    {
      assert node.right.Valid();
      RedOverBlack(node, true);
      r := AbcRotation(node);
    }

    /**
     * The cba case of the flag block: `cba := false` and the writes and
     * rotation of RepaintCba. The flag is cleared first rather than last;
     * nothing in between reads it.
     */
    method RunCba(node: Node) returns (r: Node)
      requires node.Valid() && node.Model.left.Node? && node.Model.left.left.Node?
      modifies this`cba, node.Repr
      ensures r.Valid() && r.Repr == old(node.Repr) && r.parent == old(node.parent)
      ensures r.Model == S.RotCba(S.RedOverBlack(old(node.Model), false))
      ensures Flags() == old(Flags()).(cba := false)
    {
      cba := false;
      r := RepaintCba(node);
    }

    /** `node.colour := 'r'`, `node.left.colour := 'b'`, then CBARotation. */
    method RepaintCba(node: Node) returns (r: Node)
      requires node.Valid() && node.Model.left.Node? && node.Model.left.left.Node?
      modifies node.Repr
      ensures r.Valid() && r.Repr == old(node.Repr) && r.parent == old(node.parent)
      ensures r.Model == S.RotCba(S.RedOverBlack(old(node.Model), false))
    {
      assert node.left.Valid();
      RedOverBlack(node, false);
      r := CbaRotation(node);
    }

    /**
     * The acb case of the flag block: `acb := false` and the writes and
     * rotation of RepaintAcb. The flag is cleared first rather than last;
     * nothing in between reads it.
     */
    method RunAcb(node: Node) returns (r: Node)
      requires node.Valid() && node.Model.right.Node? && node.Model.right.left.Node?
      modifies this`acb, node.Repr
      ensures r.Valid() && r.Repr == old(node.Repr) && r.parent == old(node.parent)
      ensures r.Model == S.RotAcb(S.RedOverBlack(old(node.Model), true))
      ensures Flags() == old(Flags()).(acb := false)
    {
      acb := false;
      r := RepaintAcb(node);
    }

    /** `node.colour := 'r'`, `node.right.colour := 'b'`, then ACBRotation. */
    method RepaintAcb(node: Node) returns (r: Node)
      requires node.Valid() && node.Model.right.Node? && node.Model.right.left.Node?
      modifies node.Repr
      ensures r.Valid() && r.Repr == old(node.Repr) && r.parent == old(node.parent)
      ensures r.Model == S.RotAcb(S.RedOverBlack(old(node.Model), true))
    {
      assert node.right.Valid();
      RedOverBlack(node, true);
      r := AcbRotation(node);
    }

    /**
     * The cab case of the flag block: `cab := false` and the writes and
     * rotation of RepaintCab. The flag is cleared first rather than last;
     * nothing in between reads it.
     */
    method RunCab(node: Node) returns (r: Node)
      requires node.Valid() && node.Model.left.Node? && node.Model.left.right.Node?
      modifies this`cab, node.Repr
      ensures r.Valid() && r.Repr == old(node.Repr) && r.parent == old(node.parent)
      ensures r.Model == S.RotCab(S.RedOverBlack(old(node.Model), false))
      ensures Flags() == old(Flags()).(cab := false)
    {
      cab := false;
      r := RepaintCab(node);
    }

    /** `node.colour := 'r'`, `node.left.colour := 'b'`, then CABRotation. */
    method RepaintCab(node: Node) returns (r: Node)
      requires node.Valid() && node.Model.left.Node? && node.Model.left.right.Node?
      modifies node.Repr
      ensures r.Valid() && r.Repr == old(node.Repr) && r.parent == old(node.parent)
      ensures r.Model == S.RotCab(S.RedOverBlack(old(node.Model), false))
    {
      assert node.left.Valid();
      RedOverBlack(node, false);
      r := CabRotation(node);
    }

    /**
     * `node.colour := 'r'` and `node.right.colour := 'b'` (or `node.left`
     * when not rightSide) before a rotation. The child is painted first; the
     * two writes go to different nodes, so the order does not matter.
     */
    method RedOverBlack(node: Node, rightSide: bool)
      requires node.Valid() && (if rightSide then node.right != null else node.left != null)
      requires if rightSide then node.Model.right.Node? else node.Model.left.Node?
      modifies node`colour, node`Model, if rightSide then node.right else node.left
      ensures node.Valid() && node.Repr == old(node.Repr) && node.left == old(node.left) && node.right == old(node.right)
      ensures node.parent == old(node.parent) && node.Model.Node? && old(node.Model).Node?
      ensures node.Model == S.RedOverBlack(old(node.Model), rightSide)
    {
      if rightSide {
        Paint(node.right, S.Black);
      } else {
        Paint(node.left, S.Black);
      }
      SetColour(node, S.Red);
    }

    /**
     * The violation block of addNode: it runs when `violation` is raised
     * and node has a parent g.
     */
    method HandleViolation(node: Node, ghost g: Node?, ghost sib: Node?, ghost gc: S.Colour, ghost sm: S.Tree)
      requires node.Valid() && node.parent == g
      requires Family(node, g, sib, gc, sm) && (g != null ==> Side(S.Keys(node.Model), g, sib))
      modifies this`violation, this`abc, this`cba, this`acb, this`cab, node`colour, node`Model
      modifies Only(g)`colour, Only(sib)`colour, Only(sib)`Model
      ensures node.Valid() && node.Repr == old(node.Repr) && node.parent == g
      ensures Result(node, S.Handle(S.State(old(node.Model), old(Flags())), Above(g, sm)), g, sib, gc, sm)
    {
      if violation && node.parent != null {
        Violated(node, node.parent, sib, gc, sm);
      }
    }

    /**
     * The inside of the violation block: the side of g node hangs on picks
     * the sibling to look at, and `violation` is cleared. The flag is
     * cleared first rather than last; nothing in between reads it.
     */
    method Violated(node: Node, g: Node, ghost sib: Node?, ghost gc: S.Colour, ghost sm: S.Tree)
      requires node.Valid() && node.parent == g && violation
      requires Family(node, g, sib, gc, sm) && Side(S.Keys(node.Model), g, sib)
      modifies this`violation, this`abc, this`cba, this`acb, this`cab, node`colour, node`Model
      modifies g`colour, Only(sib)`colour, Only(sib)`Model
      ensures node.Valid() && node.Repr == old(node.Repr)
      ensures Result(node, S.Handle(S.State(old(node.Model), old(Flags())), Above(g, sm)), g, sib, gc, sm)
    {
      violation := false;
      assert node.value in S.Keys(node.Model);
      if NodeValue(node) < NodeValue(g) {
        Resolve(node, g.right, g, true, gc, sm);
      } else {
        Resolve(node, g.left, g, false, gc, sm);
      }
    }

    /**
     * The violation block for a node on the left (leftSide) or right of
     * its parent g, whose other child is uncle: a red uncle means node and
     * uncle turn black and g red; otherwise MarkRotation flags a rotation.
     */
    method Resolve(node: Node, uncle: Node?, g: Node, leftSide: bool, ghost gc: S.Colour, ghost um: S.Tree)
      requires node.Valid() && node.parent == g && Family(node, g, uncle, gc, um)
      modifies this`abc, this`cba, this`acb, this`cab, node`colour, node`Model
      modifies g`colour, Only(uncle)`colour, Only(uncle)`Model
      ensures node.Valid() && node.Repr == old(node.Repr)
      ensures Result(node, S.Resolve(old(node.Model), old(Flags()), S.NodeColour(um), leftSide), g, uncle, gc, um)
    {
      if NodeColour(uncle) == S.Red {
        Recolour(node, uncle, g);
      } else {
        MarkRotation(node, leftSide);
      }
    }

    /**
     * The black-uncle case of the violation block: on the left of the
     * parent, cba for a red left child and cab for a red right child; on
     * the right, acb and abc.
     */
    method MarkRotation(node: Node, leftSide: bool)
      requires node.Valid()
      modifies this`abc, this`cba, this`acb, this`cab
      ensures Flags() == S.Resolve(node.Model, old(Flags()), S.Black, leftSide).flags
    {
      if leftSide {
        if NodeColour(node.left) == S.Red {
          cba := true;
        } else if NodeColour(node.right) == S.Red {
          cab := true;
        }
      } else {
        if NodeColour(node.left) == S.Red {
          acb := true;
        } else if NodeColour(node.right) == S.Red {
          abc := true;
        }
      }
    }

    /** The red-sibling case of the violation block: node and its sibling turn black, their parent red. */
    method Recolour(node: Node, sib: Node, g: Node)
      requires node.Valid() && sib.Valid() && node.Repr !! sib.Repr && g !in node.Repr + sib.Repr
      modifies node`colour, node`Model, sib`colour, sib`Model, g`colour
      ensures node.Valid() && node.Model == S.Paint(old(node.Model), S.Black)
      ensures sib.Valid() && sib.Model == S.Paint(old(sib.Model), S.Black)
      ensures g.colour == S.Red
    {
      Paint(node, S.Black);
      Paint(sib, S.Black);
      g.colour := S.Red;
    }

    // ----- the four rotations -----

    // The rotations below make the same assignments as the Java methods,
    // parent links included, and the same three updateHeight calls (a, then
    // c, then b). Each updateHeight(x) is made as soon as the child links of
    // x are final rather than after all of them: it reads nothing but x's
    // children and their heights, so the resulting nodes are identical. The
    // write `b.parent := p`, p being the parent of the rotated node, is made
    // last; no step in between reads b's parent field.

    /** ABCRotation: a's right child b becomes the root, with a on its left and c on its right. */
    method AbcRotation(node: Node) returns (r: Node)
      requires node.Valid() && node.right != null && node.right.right != null
      requires node.Model.right.Node? && node.Model.right.right.Node?
      modifies node, node.right, node.right.right, Only(node.right.left)`parent
      ensures r.Valid() && r.Repr == old(node.Repr) && r.parent == old(node.parent)
      ensures r.Model == S.RotAbc(old(node.Model))
    {
      var a := node;
      var b := a.right;
      var c := b.right;
      var p := a.parent;
      assert b.Valid() && c.Valid();
      LinkRight(a, b.left, {a} + ReprOf(a.left) + ReprOf(b.left),
                S.WithHeight(S.Node(ModelOf(a.left), a.value, 0, a.colour, ModelOf(b.left))));
      AbcTail(b, a, p, old(node.Repr), S.RotAbc(old(node.Model)));
      r := b;
    }

    /** The rest of ABCRotation once a is valid again: AbcLink, then `b.parent := p`. */
    method AbcTail(b: Node, a: Node, p: Node?, ghost fam: set<Node>, ghost m: S.Tree)
      requires a.Valid() && b.right != null && b.right.Valid() && b.right.parent == b
      requires b !in a.Repr && b !in b.right.Repr && a.Repr !! b.right.Repr
      requires fam == {b} + a.Repr + b.right.Repr
      requires m == S.WithHeight(S.Node(a.Model, b.value, 0, b.colour, S.WithHeight(b.right.Model)))
      modifies b`left, b`height, b`Repr, b`Model, b`parent, b.right`height, b.right`Repr, b.right`Model, a`parent
      ensures b.Valid() && b.Repr == fam && b.Model == m && b.parent == p
    {
      AbcLink(b, a, fam, m);
      Reparent(b, p);
    }

    /** updateHeight(c), then `b.left := a`, `a.parent := b` and updateHeight(b). */
    method AbcLink(b: Node, a: Node, ghost fam: set<Node>, ghost m: S.Tree)
      requires a.Valid() && b.right != null && b.right.Valid() && b.right.parent == b
      requires b !in a.Repr && b !in b.right.Repr && a.Repr !! b.right.Repr
      requires fam == {b} + a.Repr + b.right.Repr
      requires m == S.WithHeight(S.Node(a.Model, b.value, 0, b.colour, S.WithHeight(b.right.Model)))
      modifies b`left, b`height, b`Repr, b`Model, b.right`height, b.right`Repr, b.right`Model, a`parent
      ensures b.Valid() && b.Repr == fam && b.Model == m
    {
      var c := b.right;
      UpdateHeight(c);
      LinkLeft(b, a, fam, m);
    }

    /** CBARotation: c's left child b becomes the root, with a on its left and c on its right. */
    method CbaRotation(node: Node) returns (r: Node)
      requires node.Valid() && node.left != null && node.left.left != null
      requires node.Model.left.Node? && node.Model.left.left.Node?
      modifies node, node.left, node.left.left, Only(node.left.right)`parent
      ensures r.Valid() && r.Repr == old(node.Repr) && r.parent == old(node.parent)
      ensures r.Model == S.RotCba(old(node.Model))
    {
      var c := node;
      var b := c.left;
      var a := b.left;
      var p := c.parent;
      assert b.Valid() && a.Valid();
      LinkLeft(c, b.right, {c} + ReprOf(b.right) + ReprOf(c.right),
               S.WithHeight(S.Node(ModelOf(b.right), c.value, 0, c.colour, ModelOf(c.right))));
      CbaTail(b, a, c, p, old(node.Repr), S.RotCba(old(node.Model)));
      r := b;
    }

    /** The rest of CBARotation once c is valid again: CbaLink, then `b.parent := p`. */
    method CbaTail(b: Node, a: Node, c: Node, p: Node?, ghost fam: set<Node>, ghost m: S.Tree)
      requires b.left == a && a.parent == b && a.Valid() && c.Valid()
      requires b !in a.Repr && b !in c.Repr && a.Repr !! c.Repr
      requires fam == {b} + a.Repr + c.Repr
      requires m == S.WithHeight(S.Node(S.WithHeight(a.Model), b.value, 0, b.colour, c.Model))
      modifies b`right, b`height, b`Repr, b`Model, b`parent, a`height, a`Repr, a`Model, c`parent
      ensures b.Valid() && b.Repr == fam && b.Model == m && b.parent == p
    {
      CbaLink(b, a, c, fam, m);
      Reparent(b, p);
    }

    /** updateHeight(a), then `b.right := c`, `c.parent := b` and updateHeight(b). */
    method CbaLink(b: Node, a: Node, c: Node, ghost fam: set<Node>, ghost m: S.Tree)
      requires b.left == a && a.parent == b && a.Valid() && c.Valid()
      requires b !in a.Repr && b !in c.Repr && a.Repr !! c.Repr
      requires fam == {b} + a.Repr + c.Repr
      requires m == S.WithHeight(S.Node(S.WithHeight(a.Model), b.value, 0, b.colour, c.Model))
      modifies b`right, b`height, b`Repr, b`Model, a`height, a`Repr, a`Model, c`parent
      ensures b.Valid() && b.Repr == fam && b.Model == m
    {
      UpdateHeight(a);
      LinkRight(b, c, fam, m);
    }

    /** ACBRotation: b, the left child of a's right child c, becomes the root over a and c. */
    method AcbRotation(node: Node) returns (r: Node)
      requires node.Valid() && node.right != null && node.right.left != null
      requires node.Model.right.Node? && node.Model.right.left.Node?
      modifies node.Repr
      ensures r.Valid() && r.Repr == old(node.Repr) && r.parent == old(node.parent)
      ensures r.Model == S.RotAcb(old(node.Model))
    {
      var a := node;
      var c := node.right;
      var b := c.left;
      assert c.Valid() && b.Valid();
      var w, x, y, z := a.left, b.left, b.right, c.right;
      ghost var fa := {a} + ReprOf(w) + ReprOf(x);
      ghost var fc := {c} + ReprOf(y) + ReprOf(z);
      ghost var ma := S.WithHeight(S.Node(ModelOf(w), a.value, 0, a.colour, ModelOf(x)));
      ghost var mc := S.WithHeight(S.Node(ModelOf(y), c.value, 0, c.colour, ModelOf(z)));
      DoubleRotate(a, b, c, w, x, y, z, a.parent, fa, fc, ma, mc, old(node.Repr), S.RotAcb(old(node.Model)));
      r := b;
    }

    /** CABRotation: b, the right child of c's left child a, becomes the root over a and c. */
    method CabRotation(node: Node) returns (r: Node)
      requires node.Valid() && node.left != null && node.left.right != null
      requires node.Model.left.Node? && node.Model.left.right.Node?
      modifies node.Repr
      ensures r.Valid() && r.Repr == old(node.Repr) && r.parent == old(node.parent)
      ensures r.Model == S.RotCab(old(node.Model))
    {
      var c := node;
      var a := c.left;
      var b := a.right;
      assert a.Valid() && b.Valid();
      var w, x, y, z := a.left, b.left, b.right, c.right;
      ghost var fa := {a} + ReprOf(w) + ReprOf(x);
      ghost var fc := {c} + ReprOf(y) + ReprOf(z);
      ghost var ma := S.WithHeight(S.Node(ModelOf(w), a.value, 0, a.colour, ModelOf(x)));
      ghost var mc := S.WithHeight(S.Node(ModelOf(y), c.value, 0, c.colour, ModelOf(z)));
      DoubleRotate(a, b, c, w, x, y, z, c.parent, fa, fc, ma, mc, old(node.Repr), S.RotCab(old(node.Model)));
      r := b;
    }

    /**
     * The shared body of ACBRotation and CABRotation: `a.right := b.left`,
     * `c.left := b.right`, `b.left := a`, `b.right := c`, with the parent
     * links of the moved nodes, each node updated once its links are final;
     * fa, fc, ma and mc are the footprints and models a and c end up with.
     */
    method DoubleRotate(a: Node, b: Node, c: Node, w: Node?, x: Node?, y: Node?, z: Node?, p: Node?,
                        ghost fa: set<Node>, ghost fc: set<Node>, ghost ma: S.Tree, ghost mc: S.Tree,
                        ghost fam: set<Node>, ghost m: S.Tree)
      requires a.left == w && b.left == x && b.right == y && c.right == z
      requires w != null ==> w.parent == a
      requires z != null ==> z.parent == c
      requires Forest(w, x) && a !in ReprOf(w) + ReprOf(x) && fa == {a} + ReprOf(w) + ReprOf(x)
      requires Forest(y, z) && c !in ReprOf(y) + ReprOf(z) && fc == {c} + ReprOf(y) + ReprOf(z)
      requires b !in fa + fc && fa !! fc && fam == {b} + fa + fc
      requires ma == S.WithHeight(S.Node(ModelOf(w), a.value, 0, a.colour, ModelOf(x)))
      requires mc == S.WithHeight(S.Node(ModelOf(y), c.value, 0, c.colour, ModelOf(z)))
      requires m == S.WithHeight(S.Node(ma, b.value, 0, b.colour, mc))
      modifies a`right, a`height, a`Repr, a`Model, a`parent, c`left, c`height, c`Repr, c`Model, c`parent
      modifies b`left, b`right, b`height, b`Repr, b`Model, b`parent, Only(x)`parent, Only(y)`parent
      ensures b.Valid() && b.Repr == fam && b.Model == m && b.parent == p
    {
      DoubleLink(a, b, c, w, x, y, z, fa, fc, ma, mc, fam, m);
      Reparent(b, p);
    }

    /** DoubleRotate before `b.parent := p`: `a.right := b.left` with its parent link and updateHeight(a), then DoubleTail. */
    method DoubleLink(a: Node, b: Node, c: Node, w: Node?, x: Node?, y: Node?, z: Node?,
                      ghost fa: set<Node>, ghost fc: set<Node>, ghost ma: S.Tree, ghost mc: S.Tree,
                      ghost fam: set<Node>, ghost m: S.Tree)
      requires a.left == w && b.left == x && b.right == y && c.right == z
      requires w != null ==> w.parent == a
      requires z != null ==> z.parent == c
      requires Forest(w, x) && a !in ReprOf(w) + ReprOf(x) && fa == {a} + ReprOf(w) + ReprOf(x)
      requires Forest(y, z) && c !in ReprOf(y) + ReprOf(z) && fc == {c} + ReprOf(y) + ReprOf(z)
      requires b !in fa + fc && fa !! fc && fam == {b} + fa + fc
      requires ma == S.WithHeight(S.Node(ModelOf(w), a.value, 0, a.colour, ModelOf(x)))
      requires mc == S.WithHeight(S.Node(ModelOf(y), c.value, 0, c.colour, ModelOf(z)))
      requires m == S.WithHeight(S.Node(ma, b.value, 0, b.colour, mc))
      modifies a`right, a`height, a`Repr, a`Model, a`parent, c`left, c`height, c`Repr, c`Model, c`parent
      modifies b`left, b`right, b`height, b`Repr, b`Model, Only(x)`parent, Only(y)`parent
      ensures b.Valid() && b.Repr == fam && b.Model == m && b.parent == old(b.parent)
    {
      LinkRight(a, x, fa, ma);
      DoubleTail(b, a, c, y, z, fa, fc, ma, mc, fam, m);
    }

    /** DoubleRotate once a is valid again: `c.left := b.right` and updateHeight(c), then Hoist. */
    method DoubleTail(b: Node, a: Node, c: Node, y: Node?, z: Node?, ghost fa: set<Node>, ghost fc: set<Node>,
                      ghost ma: S.Tree, ghost mc: S.Tree, ghost fam: set<Node>, ghost m: S.Tree)
      requires a.Valid() && a.Repr == fa && a.Model == ma && a != c && b != c && b.right == y && c.right == z
      requires z != null ==> z.parent == c
      requires Forest(y, z) && c !in ReprOf(y) + ReprOf(z) && fc == {c} + ReprOf(y) + ReprOf(z)
      requires b !in fa + fc && fa !! fc && fam == {b} + fa + fc
      requires mc == S.WithHeight(S.Node(ModelOf(y), c.value, 0, c.colour, ModelOf(z)))
      requires m == S.WithHeight(S.Node(ma, b.value, 0, b.colour, mc))
      modifies c`left, c`height, c`Repr, c`Model, b`left, b`right, b`height, b`Repr, b`Model
      modifies a`parent, c`parent, Only(y)`parent
      ensures b.Valid() && b.Repr == fam && b.Model == m
    {
      LinkLeft(c, y, fc, mc);
      Hoist(b, a, c, fam, m);
    }

    /** The end of ACBRotation and CABRotation: `b.left := a`, `b.right := c`, both parent links, and updateHeight(b). */
    method Hoist(b: Node, a: Node, c: Node, ghost fam: set<Node>, ghost m: S.Tree)
      requires a.Valid() && c.Valid() && b !in a.Repr && b !in c.Repr && a.Repr !! c.Repr
      requires fam == {b} + a.Repr + c.Repr
      requires m == S.WithHeight(S.Node(a.Model, b.value, 0, b.colour, c.Model))
      modifies b`left, b`right, b`height, b`Repr, b`Model, a`parent, c`parent
      ensures b.Valid() && b.Repr == fam && b.Model == m
    {
      b.left := a;
      a.parent := b;
      LinkRight(b, c, fam, m);
    }

    /** A write to the parent field of a valid node, which its validity does not depend on. */
    method Reparent(n: Node, p: Node?)
      requires n.Valid()
      modifies n`parent
      ensures n.Valid() && n.parent == p
    {
      n.parent := p;
    }

    /** A write to the colour field of a node whose children are valid (and may just have been repainted). */
    method SetColour(n: Node, c: S.Colour)
      requires ChildrenValid(n) && n.Repr == {n} + ReprOf(n.left) + ReprOf(n.right)
      modifies n`colour, n`Model
      ensures n.Valid() && n.Model == S.Node(old(ModelOf(n.left)), n.value, n.height, c, old(ModelOf(n.right)))
    {
      n.colour := c;
      n.Model := S.Node(ModelOf(n.left), n.value, n.height, c, ModelOf(n.right));
    }

    /** A write to the colour field of a valid node. */
    method Paint(n: Node, c: S.Colour)
      requires n.Valid()
      modifies n`colour, n`Model
      ensures n.Valid() && n.Model == S.Paint(old(n.Model), c)
    {
      n.colour := c;
      n.Model := S.Node(ModelOf(n.left), n.value, n.height, c, ModelOf(n.right));
    }
  }
}
