/**
 * Functional model of the AVL tree of AVL.java.
 *
 * A subtree is a value of `Tree` that records, for every node, its key and
 * the cached `height` field exactly as the Java field holds it (so a stale
 * cache is representable). `Add` follows `addNode` branch by branch,
 * including the two-node trail that the Java class keeps in the fields
 * `trail1` and `trail2`: here the trail is threaded through the recursion as
 * the pair of values that `getNodeValue` reports for those two nodes.
 */
module AvlSpec {

  import opened Sequences

  datatype Tree = Nil | Node(left: Tree, value: int, height: int, right: Tree)

  /** What `getNodeValue(trail1)` and `getNodeValue(trail2)` report. */
  datatype Trail = Trail(v1: int, v2: int)

  /** The subtree `addNode` returns, and the trail it leaves behind. */
  datatype Step = Step(tree: Tree, trail: Trail)

  /** The four three-node rotations of AVL.java. */
  datatype Rotation = Abc | Cba | Acb | Cab

  /** The value `getNodeValue` reports for a null node. */
  const Null: int := -1

  /** The trail of a freshly constructed AVL object (both fields null). */
  const NoTrail: Trail := Trail(Null, Null)

  /** A node as the Node constructor makes it: height 1, no children. */
  function Leaf(value: int): Tree {
    Node(Nil, value, 1, Nil)
  }

  /** getNodeHeight: the cached height, 0 for an absent node. */
  function NodeHeight(t: Tree): int {
    if t.Nil? then 0 else t.height
  }

  /** getNodeValue: the key, or the sentinel -1 for an absent node. */
  function NodeValue(t: Tree): int {
    if t.Nil? then Null else t.value
  }

  function Max(a: int, b: int): int {
    if a < b then b else a
  }

  /** The true height: number of nodes on the longest root-to-leaf path. */
  function Height(t: Tree): nat {
    match t
    case Nil => 0
    case Node(l, _, _, r) => 1 + Max(Height(l), Height(r))
  }

  /** Every cached height is one more than the larger cached height of the children. */
  predicate Cached(t: Tree) {
    match t
    case Nil => true
    case Node(l, _, h, r) => Cached(l) && Cached(r) && h == 1 + Max(NodeHeight(l), NodeHeight(r))
  }

  /** The balance test of checkBalance holds at every node: the cached heights of the children differ by at most one. */
  predicate Balanced(t: Tree) {
    match t
    case Nil => true
    case Node(l, _, _, r) => Balanced(l) && Balanced(r) && -1 <= NodeHeight(l) - NodeHeight(r) <= 1
  }

  /** The AVL property on true heights: at every node the children's heights differ by at most one. */
  predicate HeightBalanced(t: Tree) {
    match t
    case Nil => true
    case Node(l, _, _, r) => HeightBalanced(l) && HeightBalanced(r) && -1 <= Height(l) - Height(r) <= 1
  }

  function Keys(t: Tree): set<int> {
    match t
    case Nil => {}
    case Node(l, x, _, r) => Keys(l) + {x} + Keys(r)
  }

  /** Strict binary-search-tree order. */
  predicate Ordered(t: Tree) {
    match t
    case Nil => true
    case Node(l, x, _, r) =>
      Ordered(l) && Ordered(r) &&
      (forall k | k in Keys(l) :: k < x) &&
      (forall k | k in Keys(r) :: x < k)
  }

  function InOrder(t: Tree): seq<int> {
    match t
    case Nil => []
    case Node(l, x, _, r) => InOrder(l) + [x] + InOrder(r)
  }

  /** The invariant the AVL class keeps between calls of `insert`. */
  predicate IsAvl(t: Tree) {
    Cached(t) && Balanced(t) && Ordered(t)
  }

  /** updateHeight: recompute the cached height from the children's cached heights. */
  function WithHeight(t: Tree): (r: Tree)
    requires t.Node?
    ensures r.Node? && r.left == t.left && r.value == t.value && r.right == t.right
    ensures Cached(t.left) && Cached(t.right) ==> Cached(r)
    ensures r.height == Max(NodeHeight(t.left), NodeHeight(t.right)) + 1
  {
    t.(height := Max(NodeHeight(t.left), NodeHeight(t.right)) + 1)
  }

  /** ABCRotation: a single left rotation of a, its right child b and b's right child c. */
  function RotAbc(t: Tree): (r: Tree)
    requires t.Node? && t.right.Node? && t.right.right.Node?
    ensures InOrder(r) == InOrder(t)
    ensures r.Node? && r.left.Node? && r.right.Node?
    ensures r.value == t.right.value && r.left.value == t.value && r.right.value == t.right.right.value
    ensures r.left.left == t.left && r.left.right == t.right.left
    ensures r.right.left == t.right.right.left && r.right.right == t.right.right.right
    ensures Cached(t.left) && Cached(t.right.left) && Cached(t.right.right) ==> Cached(r)
  {
    var a, b, c := t, t.right, t.right.right;
    assert InOrder(t) == InOrder(a.left) + [a.value] + InOrder(b.left) + [b.value] + InOrder(c);
    WithHeight(Node(WithHeight(Node(a.left, a.value, 0, b.left)), b.value, 0, WithHeight(Node(c.left, c.value, 0, c.right))))
  }

  /** CBARotation: a single right rotation of c, its left child b and b's left child a. */
  function RotCba(t: Tree): (r: Tree)
    requires t.Node? && t.left.Node? && t.left.left.Node?
    ensures InOrder(r) == InOrder(t)
    ensures r.Node? && r.left.Node? && r.right.Node?
    ensures r.value == t.left.value && r.left.value == t.left.left.value && r.right.value == t.value
    ensures r.left.left == t.left.left.left && r.left.right == t.left.left.right
    ensures r.right.left == t.left.right && r.right.right == t.right
    ensures Cached(t.left.left) && Cached(t.left.right) && Cached(t.right) ==> Cached(r)
  {
    var c, b, a := t, t.left, t.left.left;
    assert InOrder(t) == InOrder(a) + [b.value] + InOrder(b.right) + [c.value] + InOrder(c.right);
    WithHeight(Node(WithHeight(Node(a.left, a.value, 0, a.right)), b.value, 0, WithHeight(Node(b.right, c.value, 0, c.right))))
  }

  /** ACBRotation: a, its right child c and c's left child b; b becomes the root. */
  function RotAcb(t: Tree): (r: Tree)
    requires t.Node? && t.right.Node? && t.right.left.Node?
    ensures InOrder(r) == InOrder(t)
    ensures r.Node? && r.left.Node? && r.right.Node?
    ensures r.value == t.right.left.value && r.left.value == t.value && r.right.value == t.right.value
    ensures r.left.left == t.left && r.left.right == t.right.left.left
    ensures r.right.left == t.right.left.right && r.right.right == t.right.right
    ensures Cached(t.left) && Cached(t.right.left.left) && Cached(t.right.left.right) && Cached(t.right.right)
            ==> Cached(r)
  {
    var a, c, b := t, t.right, t.right.left;
    assert InOrder(c) == InOrder(b.left) + [b.value] + InOrder(b.right) + [c.value] + InOrder(c.right);
    assert InOrder(t) ==
      InOrder(a.left) + [a.value] + InOrder(b.left) + [b.value] + InOrder(b.right) + [c.value] + InOrder(c.right);
    WithHeight(Node(WithHeight(Node(a.left, a.value, 0, b.left)), b.value, 0, WithHeight(Node(b.right, c.value, 0, c.right))))
  }

  /** CABRotation: c, its left child a and a's right child b; b becomes the root. */
  function RotCab(t: Tree): (r: Tree)
    requires t.Node? && t.left.Node? && t.left.right.Node?
    ensures InOrder(r) == InOrder(t)
    ensures r.Node? && r.left.Node? && r.right.Node?
    ensures r.value == t.left.right.value && r.left.value == t.left.value && r.right.value == t.value
    ensures r.left.left == t.left.left && r.left.right == t.left.right.left
    ensures r.right.left == t.left.right.right && r.right.right == t.right
    ensures Cached(t.left.left) && Cached(t.left.right.left) && Cached(t.left.right.right) && Cached(t.right)
            ==> Cached(r)
  {
    var c, a, b := t, t.left, t.left.right;
    assert InOrder(a) == InOrder(a.left) + [a.value] + InOrder(b.left) + [b.value] + InOrder(b.right);
    assert InOrder(t) ==
      InOrder(a.left) + [a.value] + InOrder(b.left) + [b.value] + InOrder(b.right) + [c.value] + InOrder(c.right);
    WithHeight(Node(WithHeight(Node(a.left, a.value, 0, b.left)), b.value, 0, WithHeight(Node(b.right, c.value, 0, c.right))))
  }

  /** The tree RotAcb builds, in terms of the keys and subtrees it moves. */
  lemma AcbShape(t: Tree)
    requires t.Node? && t.right.Node? && t.right.left.Node?
    ensures RotAcb(t) ==
            WithHeight(Node(WithHeight(Node(t.left, t.value, 0, t.right.left.left)), t.right.left.value, 0,
                            WithHeight(Node(t.right.left.right, t.right.value, 0, t.right.right))))
  {
  }

  /** The tree RotCab builds, in terms of the keys and subtrees it moves. */
  lemma CabShape(t: Tree)
    requires t.Node? && t.left.Node? && t.left.right.Node?
    ensures RotCab(t) ==
            WithHeight(Node(WithHeight(Node(t.left.left, t.left.value, 0, t.left.right.left)), t.left.right.value, 0,
                            WithHeight(Node(t.left.right.right, t.value, 0, t.right))))
  {
  }

  /** The imbalance test of checkBalance, on cached heights. */
  predicate Unbalanced(t: Tree)
    requires t.Node?
  {
    NodeHeight(t.left) - NodeHeight(t.right) > 1 || NodeHeight(t.left) - NodeHeight(t.right) < -1
  }

  /**
   * With correct caches below the node, the imbalance test of checkBalance
   * is a difference of more than one between the true heights of the
   * children.
   */
  lemma UnbalancedOnTrueHeights(t: Tree)
    requires t.Node? && Cached(t.left) && Cached(t.right)
    ensures Unbalanced(t) <==> !(-1 <= Height(t.left) - Height(t.right) <= 1)
  {
    CachedHeight(t.left);
    CachedHeight(t.right);
  }

  /**
   * The rotation checkBalance selects from the node's key and the two trail
   * values. For three distinct keys the first comparison picks the side the
   * trail leaves the node on (ABC and ACB to the right), and the second
   * whether the trail goes on in the same direction (the single rotations
   * ABC and CBA) or turns (the double rotations).
   */
  function Choose(x: int, v1: int, v2: int): (r: Rotation)
    ensures x != v1 && v1 != v2 ==> ((r == Abc || r == Acb) <==> x < v1)
    ensures x != v1 && v1 != v2 ==> ((r == Abc || r == Cba) <==> (x < v1 <==> v1 < v2))
  {
    if x < v1 && v1 < v2 then Abc
    else if x > v1 && v1 > v2 then Cba
    else if x < v1 && v1 > v2 then Acb
    else Cab
  }

  /** The nodes the rotation dereferences are present (otherwise Java throws). */
  predicate Fits(t: Tree, rot: Rotation) {
    t.Node? &&
    match rot
    case Abc => t.right.Node? && t.right.right.Node?
    case Cba => t.left.Node? && t.left.left.Node?
    case Acb => t.right.Node? && t.right.left.Node?
    case Cab => t.left.Node? && t.left.right.Node?
  }

  /** The values getNodeValue reports for the child and the grandchild a rotation dereferences. */
  function PathTrail(t: Tree, rot: Rotation): Trail
    requires Fits(t, rot)
  {
    match rot
    case Abc => Trail(t.right.value, t.right.right.value)
    case Cba => Trail(t.left.value, t.left.left.value)
    case Acb => Trail(t.right.value, t.right.left.value)
    case Cab => Trail(t.left.value, t.left.right.value)
  }

  /**
   * In a search tree the value tests of checkBalance recognise every path
   * from a node down to a grandchild: given the keys along the path, Choose
   * names the rotation for that path.
   */
  lemma ChooseFollowsPath(t: Tree, rot: Rotation)
    requires Ordered(t) && Fits(t, rot)
    ensures Choose(t.value, PathTrail(t, rot).v1, PathTrail(t, rot).v2) == rot
  {
    match rot
    case Abc =>
      assert t.right.right.value in Keys(t.right);
      assert t.value < t.right.value < t.right.right.value;
    case Cba =>
      assert t.left.left.value in Keys(t.left);
      assert t.value > t.left.value > t.left.left.value;
    case Acb =>
      assert t.right.left.value in Keys(t.right);
      assert t.value < t.right.left.value < t.right.value;
    case Cab =>
      assert t.left.right.value in Keys(t.left);
      assert t.left.value < t.left.right.value < t.value;
  }

  function Rotate(t: Tree, rot: Rotation): (r: Tree)
    requires Fits(t, rot)
    ensures InOrder(r) == InOrder(t)
  {
    match rot
    case Abc => RotAbc(t)
    case Cba => RotCba(t)
    case Acb => RotAcb(t)
    case Cab => RotCab(t)
  }

  /** checkBalance: rotate when the cached child heights differ by more than one. */
  function Rebalance(t: Tree, tr: Trail): (r: Tree)
    requires t.Node?
    requires Unbalanced(t) ==> Fits(t, Choose(t.value, tr.v1, tr.v2))
    ensures !Unbalanced(t) ==> r == t
    ensures InOrder(r) == InOrder(t)
  {
    if Unbalanced(t) then Rotate(t, Choose(t.value, tr.v1, tr.v2)) else t
  }

  /**
   * The trail names the root of the subtree and its strictly taller child:
   * the shape a parent needs in order to pick its rotation.
   */
  predicate Leans(s: Step) {
    var t := s.tree;
    t.Node? && s.trail.v1 == t.value &&
    (NodeHeight(t) >= 2 ==>
      (t.left.Node? && s.trail.v2 == t.left.value &&
       NodeHeight(t.left) == NodeHeight(t) - 1 && NodeHeight(t.right) == NodeHeight(t) - 2) ||
      (t.right.Node? && s.trail.v2 == t.right.value &&
       NodeHeight(t.right) == NodeHeight(t) - 1 && NodeHeight(t.left) == NodeHeight(t) - 2))
  }

  /** What one level of addNode guarantees about the subtree it returns. */
  predicate AddPost(t: Tree, v: int, s: Step) {
    IsAvl(s.tree) &&
    Keys(s.tree) == Keys(t) + {v} &&
    (v in Keys(t) ==> s.tree == t) &&
    (NodeHeight(s.tree) == NodeHeight(t) || (NodeHeight(s.tree) == NodeHeight(t) + 1 && Leans(s)))
  }

  /**
   * addNode(node, value) with the trail fields `tr` on entry: descend, and on
   * the way back up recompute the height, call checkBalance with the trail
   * left by the level below, then point trail1 at this node and trail2 at
   * its child on the insertion side.
   */
  function Add(t: Tree, v: int, tr: Trail): (s: Step)
    requires IsAvl(t)
    ensures IsAvl(s.tree)
    ensures Keys(s.tree) == Keys(t) + {v}
    ensures v in Keys(t) ==> s.tree == t
    ensures NodeHeight(s.tree) == NodeHeight(t) || (NodeHeight(s.tree) == NodeHeight(t) + 1 && Leans(s))
    decreases t
  {
    match t
    case Nil => Step(Leaf(v), Trail(v, Null))
    case Node(l, x, h, r) =>
      if x > v then LeftStep(t, v, Add(l, v, tr))
      else if x < v then RightStep(t, v, Add(r, v, tr))
      else
        Step(t, tr)
  }

  // ----- cached and true heights -----

  /** A consistent cache holds the true height: an empty tree has height 0 and a leaf height 1. */
  lemma {:induction false} CachedHeight(t: Tree)
    requires Cached(t)
    ensures NodeHeight(t) == Height(t)
  {
    match t
    case Nil =>
    case Node(l, _, _, r) =>
      CachedHeight(l);
      CachedHeight(r);
  }

  /** With a consistent cache the balance test of checkBalance is the AVL property on true heights. */
  lemma {:induction false} AvlIsHeightBalanced(t: Tree)
    requires Cached(t) && Balanced(t)
    ensures HeightBalanced(t)
  {
    match t
    case Nil =>
    case Node(l, _, _, r) =>
      CachedHeight(l);
      CachedHeight(r);
      AvlIsHeightBalanced(l);
      AvlIsHeightBalanced(r);
  }

  // ----- in-order sequence, keys and order -----

  lemma {:induction false} KeysAreInOrder(t: Tree)
    ensures Keys(t) == set k | k in InOrder(t)
    ensures forall k :: k in Keys(t) <==> k in InOrder(t)
  {
    match t
    case Nil =>
    case Node(l, x, _, r) =>
      KeysAreInOrder(l);
      KeysAreInOrder(r);
  }

  lemma {:induction false} OrderedIffIncreasing(t: Tree)
    ensures Ordered(t) <==> Increasing(InOrder(t))
  {
    match t
    case Nil =>
    case Node(l, x, _, r) =>
      OrderedIffIncreasing(l);
      OrderedIffIncreasing(r);
      KeysAreInOrder(l);
      KeysAreInOrder(r);
      if Increasing(InOrder(t)) {
        IncreasingParts(InOrder(l), x, InOrder(r));
      }
      if Ordered(t) {
        IncreasingJoin(InOrder(l), x, InOrder(r));
      }
  }

  /** Two trees with the same in-order sequence have the same keys and the same order status. */
  lemma SameInOrder(a: Tree, b: Tree)
    requires InOrder(a) == InOrder(b)
    ensures Keys(a) == Keys(b)
    ensures Ordered(a) <==> Ordered(b)
  {
    KeysAreInOrder(a);
    KeysAreInOrder(b);
    OrderedIffIncreasing(a);
    OrderedIffIncreasing(b);
  }

  // ----- the trail selects the rotation -----

  /**
   * When the node is out of balance after an insertion on its left, the
   * trail left by the level below names the left child and that child's
   * taller child, and the value tests of checkBalance pick CBA (left-left)
   * or CAB (left-right) accordingly; the -1 sentinel is never compared.
   */
  lemma TrailPicksRotationLeft(t: Tree, v: int, sub: Step)
    requires t.Node? && IsAvl(t) && v < t.value
    requires AddPost(t.left, v, sub)
    requires Unbalanced(WithHeight(Node(sub.tree, t.value, t.height, t.right)))
    ensures sub.tree.Node? && sub.trail.v1 == sub.tree.value
    ensures NodeHeight(sub.tree) == NodeHeight(t.right) + 2
    ensures
      (sub.tree.left.Node? && sub.trail.v2 == sub.tree.left.value &&
       NodeHeight(sub.tree.left) == NodeHeight(t.right) + 1 &&
       NodeHeight(sub.tree.right) == NodeHeight(t.right) &&
       Choose(t.value, sub.trail.v1, sub.trail.v2) == Cba) ||
      (sub.tree.right.Node? && sub.trail.v2 == sub.tree.right.value &&
       NodeHeight(sub.tree.right) == NodeHeight(t.right) + 1 &&
       NodeHeight(sub.tree.left) == NodeHeight(t.right) &&
       Choose(t.value, sub.trail.v1, sub.trail.v2) == Cab)
  {
    var c := sub.tree;
    CachedHeight(t.right);
    assert c.value in Keys(c);
    if c.left.Node? && sub.trail.v2 == c.left.value && NodeHeight(c.left) == NodeHeight(c) - 1 {
      assert c.left.value in Keys(c.left);
    } else {
      assert c.right.value in Keys(c.right);
    }
  }

  /** Mirror image: an insertion on the right picks ABC (right-right) or ACB (right-left). */
  lemma TrailPicksRotationRight(t: Tree, v: int, sub: Step)
    requires t.Node? && IsAvl(t) && t.value < v
    requires AddPost(t.right, v, sub)
    requires Unbalanced(WithHeight(Node(t.left, t.value, t.height, sub.tree)))
    ensures sub.tree.Node? && sub.trail.v1 == sub.tree.value
    ensures NodeHeight(sub.tree) == NodeHeight(t.left) + 2
    ensures
      (sub.tree.right.Node? && sub.trail.v2 == sub.tree.right.value &&
       NodeHeight(sub.tree.right) == NodeHeight(t.left) + 1 &&
       NodeHeight(sub.tree.left) == NodeHeight(t.left) &&
       Choose(t.value, sub.trail.v1, sub.trail.v2) == Abc) ||
      (sub.tree.left.Node? && sub.trail.v2 == sub.tree.left.value &&
       NodeHeight(sub.tree.left) == NodeHeight(t.left) + 1 &&
       NodeHeight(sub.tree.right) == NodeHeight(t.left) &&
       Choose(t.value, sub.trail.v1, sub.trail.v2) == Acb)
  {
    var c := sub.tree;
    CachedHeight(t.left);
    assert c.value in Keys(c);
    if c.right.Node? && sub.trail.v2 == c.right.value && NodeHeight(c.right) == NodeHeight(c) - 1 {
      assert c.right.value in Keys(c.right);
    } else {
      assert c.left.value in Keys(c.left);
    }
  }

  // ----- each rotation restores balance and the pre-insertion height -----

  lemma BalancedAfterCba(n: Tree)
    requires Fits(n, Cba) && Cached(n.left) && Balanced(n.left) && Cached(n.right) && Balanced(n.right)
    requires NodeHeight(n.left.left) == NodeHeight(n.right) + 1 && NodeHeight(n.left.right) == NodeHeight(n.right)
    ensures Cached(RotCba(n)) && Balanced(RotCba(n)) && NodeHeight(RotCba(n)) == NodeHeight(n.right) + 2
  {
  }

  lemma BalancedAfterCab(n: Tree)
    requires Fits(n, Cab) && Cached(n.left) && Balanced(n.left) && Cached(n.right) && Balanced(n.right)
    requires NodeHeight(n.left.right) == NodeHeight(n.right) + 1 && NodeHeight(n.left.left) == NodeHeight(n.right)
    ensures Cached(RotCab(n)) && Balanced(RotCab(n)) && NodeHeight(RotCab(n)) == NodeHeight(n.right) + 2
  {
  }

  lemma BalancedAfterAbc(n: Tree)
    requires Fits(n, Abc) && Cached(n.left) && Balanced(n.left) && Cached(n.right) && Balanced(n.right)
    requires NodeHeight(n.right.right) == NodeHeight(n.left) + 1 && NodeHeight(n.right.left) == NodeHeight(n.left)
    ensures Cached(RotAbc(n)) && Balanced(RotAbc(n)) && NodeHeight(RotAbc(n)) == NodeHeight(n.left) + 2
  {
  }

  lemma BalancedAfterAcb(n: Tree)
    requires Fits(n, Acb) && Cached(n.left) && Balanced(n.left) && Cached(n.right) && Balanced(n.right)
    requires NodeHeight(n.right.left) == NodeHeight(n.left) + 1 && NodeHeight(n.right.right) == NodeHeight(n.left)
    ensures Cached(RotAcb(n)) && Balanced(RotAcb(n)) && NodeHeight(RotAcb(n)) == NodeHeight(n.left) + 2
  {
  }

  // ----- one level of addNode -----

  lemma AddedLeft(t: Tree, v: int, sub: Step)
    requires t.Node? && IsAvl(t) && v < t.value
    requires AddPost(t.left, v, sub)
    ensures var n := WithHeight(Node(sub.tree, t.value, t.height, t.right));
            Unbalanced(n) ==> Fits(n, Choose(t.value, sub.trail.v1, sub.trail.v2))
    ensures var m := Rebalance(WithHeight(Node(sub.tree, t.value, t.height, t.right)), sub.trail);
            AddPost(t, v, Step(m, Trail(m.value, NodeValue(m.left))))
  {
    var n := WithHeight(Node(sub.tree, t.value, t.height, t.right));
    assert Ordered(n);
    if Unbalanced(n) {
      TrailPicksRotationLeft(t, v, sub);
      var m := Rotate(n, Choose(t.value, sub.trail.v1, sub.trail.v2));
      if Choose(t.value, sub.trail.v1, sub.trail.v2) == Cba {
        BalancedAfterCba(n);
      } else {
        BalancedAfterCab(n);
      }
      SameInOrder(m, n);
    } else if v in Keys(t.left) {
      assert n == t;
    }
  }

  lemma AddedRight(t: Tree, v: int, sub: Step)
    requires t.Node? && IsAvl(t) && t.value < v
    requires AddPost(t.right, v, sub)
    ensures var n := WithHeight(Node(t.left, t.value, t.height, sub.tree));
            Unbalanced(n) ==> Fits(n, Choose(t.value, sub.trail.v1, sub.trail.v2))
    ensures var m := Rebalance(WithHeight(Node(t.left, t.value, t.height, sub.tree)), sub.trail);
            AddPost(t, v, Step(m, Trail(m.value, NodeValue(m.right))))
  {
    var n := WithHeight(Node(t.left, t.value, t.height, sub.tree));
    assert Ordered(n);
    if Unbalanced(n) {
      TrailPicksRotationRight(t, v, sub);
      var m := Rotate(n, Choose(t.value, sub.trail.v1, sub.trail.v2));
      if Choose(t.value, sub.trail.v1, sub.trail.v2) == Abc {
        BalancedAfterAbc(n);
      } else {
        BalancedAfterAcb(n);
      }
      SameInOrder(m, n);
    } else if v in Keys(t.right) {
      assert n == t;
    }
  }

  /**
   * The way back up through a node whose left subtree received the key:
   * `node.left` is the subtree sub.tree the level below returned, then
   * updateHeight, checkBalance with the trail sub.trail, and the trail moves.
   */
  function LeftStep(t: Tree, v: int, sub: Step): (s: Step)
    requires t.Node? && IsAvl(t) && v < t.value && AddPost(t.left, v, sub)
    ensures AddPost(t, v, s)
  {
    AddedLeft(t, v, sub);
    var m := Rebalance(WithHeight(Node(sub.tree, t.value, t.height, t.right)), sub.trail);
    Step(m, Trail(m.value, NodeValue(m.left)))
  }

  /** The mirror image of LeftStep. */
  function RightStep(t: Tree, v: int, sub: Step): (s: Step)
    requires t.Node? && IsAvl(t) && t.value < v && AddPost(t.right, v, sub)
    ensures AddPost(t, v, s)
  {
    AddedRight(t, v, sub);
    var m := Rebalance(WithHeight(Node(t.left, t.value, t.height, sub.tree)), sub.trail);
    Step(m, Trail(m.value, NodeValue(m.right)))
  }

  // ----- worked insertions -----

  /** The first insertion into a subtree that is empty makes a leaf and starts the trail there. */
  lemma InsertIntoEmpty(v: int, tr: Trail)
    ensures Add(Nil, v, tr) == Step(Leaf(v), Trail(v, Null))
  {
  }

  lemma AddToLeafRight(x: int, v: int, tr: Trail)
    requires x < v
    ensures IsAvl(Leaf(x))
    ensures Add(Leaf(x), v, tr) == Step(Node(Nil, x, 2, Leaf(v)), Trail(x, v))
  {
    InsertIntoEmpty(v, tr);
  }

  lemma AddToLeafLeft(x: int, v: int, tr: Trail)
    requires v < x
    ensures IsAvl(Leaf(x))
    ensures Add(Leaf(x), v, tr) == Step(Node(Leaf(v), x, 2, Nil), Trail(x, v))
  {
    InsertIntoEmpty(v, tr);
  }

  /** Right-right: a node with only a right child gets a key beyond that child; ABCRotation makes the middle key the root. */
  lemma RightRightRotation(a: int, b: int, c: int, tr: Trail)
    requires a < b < c
    ensures IsAvl(Node(Nil, a, 2, Leaf(b)))
    ensures Add(Node(Nil, a, 2, Leaf(b)), c, tr) == Step(Node(Leaf(a), b, 2, Leaf(c)), Trail(b, c))
  {
    var t := Node(Nil, a, 2, Leaf(b));
    AddToLeafRight(b, c, tr);
    assert Keys(Leaf(b)) == {b};
    assert IsAvl(t);
    var sub := Step(Node(Nil, b, 2, Leaf(c)), Trail(b, c));
    assert Add(t, c, tr) == RightStep(t, c, sub);
    var n := WithHeight(Node(Nil, a, 2, sub.tree));
    assert Unbalanced(n) && Choose(a, b, c) == Abc;
    assert Rebalance(n, sub.trail) == RotAbc(n);
  }

  /** Left-left: the mirror image, through CBARotation. */
  lemma LeftLeftRotation(a: int, b: int, c: int, tr: Trail)
    requires a < b < c
    ensures IsAvl(Node(Leaf(b), c, 2, Nil))
    ensures Add(Node(Leaf(b), c, 2, Nil), a, tr) == Step(Node(Leaf(a), b, 2, Leaf(c)), Trail(b, a))
  {
    var t := Node(Leaf(b), c, 2, Nil);
    AddToLeafLeft(b, a, tr);
    assert Keys(Leaf(b)) == {b};
    assert IsAvl(t);
    var sub := Step(Node(Leaf(a), b, 2, Nil), Trail(b, a));
    assert Add(t, a, tr) == LeftStep(t, a, sub);
    var n := WithHeight(Node(sub.tree, c, 2, Nil));
    assert Unbalanced(n) && Choose(c, b, a) == Cba;
    assert Rebalance(n, sub.trail) == RotCba(n);
  }

  /** Right-left: the new key falls between the node and its right child; ACBRotation makes it the root. */
  lemma RightLeftRotation(a: int, b: int, c: int, tr: Trail)
    requires a < b < c
    ensures IsAvl(Node(Nil, a, 2, Leaf(c)))
    ensures Add(Node(Nil, a, 2, Leaf(c)), b, tr) == Step(Node(Leaf(a), b, 2, Leaf(c)), Trail(b, c))
  {
    var t := Node(Nil, a, 2, Leaf(c));
    AddToLeafLeft(c, b, tr);
    assert Keys(Leaf(c)) == {c};
    assert IsAvl(t);
    var sub := Step(Node(Leaf(b), c, 2, Nil), Trail(c, b));
    assert Add(t, b, tr) == RightStep(t, b, sub);
    var n := WithHeight(Node(Nil, a, 2, sub.tree));
    assert Unbalanced(n) && Choose(a, c, b) == Acb;
    AcbShape(n);
    assert Rebalance(n, sub.trail) == RotAcb(n);
  }

  /** Left-right: the mirror image, through CABRotation. */
  lemma LeftRightRotation(a: int, b: int, c: int, tr: Trail)
    requires a < b < c
    ensures IsAvl(Node(Leaf(a), c, 2, Nil))
    ensures Add(Node(Leaf(a), c, 2, Nil), b, tr) == Step(Node(Leaf(a), b, 2, Leaf(c)), Trail(b, a))
  {
    var t := Node(Leaf(a), c, 2, Nil);
    AddToLeafRight(a, b, tr);
    assert Keys(Leaf(a)) == {a};
    assert IsAvl(t);
    var sub := Step(Node(Nil, a, 2, Leaf(b)), Trail(a, b));
    assert Add(t, b, tr) == LeftStep(t, b, sub);
    var n := WithHeight(Node(sub.tree, c, 2, Nil));
    assert Unbalanced(n) && Choose(c, a, b) == Cab;
    CabShape(n);
    assert Rebalance(n, sub.trail) == RotCab(n);
  }

  /** Inserting three distinct keys into an empty AVL object, one after another. */
  function InsertThree(x: int, y: int, z: int): (t: Tree)
    ensures IsAvl(t) && Keys(t) == {x, y, z}
  {
    var s1 := Add(Nil, x, NoTrail);
    var s2 := Add(s1.tree, y, s1.trail);
    Add(s2.tree, z, s2.trail).tree
  }

  /**
   * Whatever the order of three distinct keys a < b < c, the tree ends up
   * with b at the root over the leaves a and c: the rotations fire exactly
   * when the first two keys leave the third beyond one of them.
   */
  lemma ThreeKeysAnyOrder(a: int, b: int, c: int)
    requires a < b < c
    ensures InsertThree(a, b, c) == Node(Leaf(a), b, 2, Leaf(c))
    ensures InsertThree(a, c, b) == Node(Leaf(a), b, 2, Leaf(c))
    ensures InsertThree(b, a, c) == Node(Leaf(a), b, 2, Leaf(c))
    ensures InsertThree(b, c, a) == Node(Leaf(a), b, 2, Leaf(c))
    ensures InsertThree(c, a, b) == Node(Leaf(a), b, 2, Leaf(c))
    ensures InsertThree(c, b, a) == Node(Leaf(a), b, 2, Leaf(c))
  {
    InsertIntoEmpty(a, NoTrail);
    InsertIntoEmpty(b, NoTrail);
    InsertIntoEmpty(c, NoTrail);
    AddToLeafRight(a, b, Trail(a, Null));
    RightRightRotation(a, b, c, Trail(a, b));
    AddToLeafRight(a, c, Trail(a, Null));
    RightLeftRotation(a, b, c, Trail(a, c));
    AddToLeafLeft(b, a, Trail(b, Null));
    AddToLeafRight(b, c, Trail(b, Null));
    assert Add(Node(Leaf(a), b, 2, Nil), c, Trail(b, a)).tree == Node(Leaf(a), b, 2, Leaf(c));
    assert Add(Node(Nil, b, 2, Leaf(c)), a, Trail(b, c)).tree == Node(Leaf(a), b, 2, Leaf(c));
    AddToLeafLeft(c, a, Trail(c, Null));
    LeftRightRotation(a, b, c, Trail(c, a));
    AddToLeafLeft(c, b, Trail(c, Null));
    LeftLeftRotation(a, b, c, Trail(c, b));
  }
}
