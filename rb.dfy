/**
 * The node structure of RedBlackTree.java and its invariants.
 *
 * The Java nodes carry parent pointers and are relinked in place. Here a
 * tree is a value and a position inside it is a zipper: the subtree in
 * focus together with the path of frames from its parent up to the root.
 * Following a parent pointer is moving one frame up; relinking the parent's
 * child is rebuilding with `Plug`. A `Nil` in focus with a non-empty path is
 * an absent child at a known position, the black "nil" leaf of the classic
 * algorithm.
 */
module RedBlack {
  import opened Keys

  /** RED = true and BLACK = false in the Java code. */
  datatype Color = Red | Black

  /** RedBlackTree.Node without its parent pointer; `Nil` is a null child. */
  datatype RBTree = Nil | Node(color: Color, left: RBTree, value: string, right: RBTree)

  /** One step of the path from a focused subtree up to the root: the
      parent's colour, key and other child, and on which side the focus
      hangs. */
  datatype Frame =
    | LeftOf(color: Color, value: string, right: RBTree)
    | RightOf(color: Color, left: RBTree, value: string)

  predicate IsRed(t: RBTree) {
    t.Node? && t.color == Red
  }

  /** Recolour the root of a subtree; an absent node stays absent. */
  function Paint(t: RBTree, c: Color): (r: RBTree)
    ensures InOrder(r) == InOrder(t)
    ensures r.Nil? <==> t.Nil?
    ensures t.Node? ==> r.color == c && r.left == t.left && r.right == t.right
  {
    if t.Nil? then Nil else t.(color := c)
  }

  /** The keys in `traverseInOrder` order: left subtree, node, right
      subtree. */
  function InOrder(t: RBTree): (r: seq<string>)
    ensures r == [] <==> t.Nil?
  {
    if t.Nil? then [] else InOrder(t.left) + [t.value] + InOrder(t.right)
  }

  /** The keys in `traversePreOrder` order: one per node, the node first. */
  function PreOrder(t: RBTree): (r: seq<string>)
  {
    if t.Nil? then [] else [t.value] + PreOrder(t.left) + PreOrder(t.right)
  }

  /** The keys in `traversePostOrder` order: one per node, the node last. */
  function PostOrder(t: RBTree): (r: seq<string>)
  {
    if t.Nil? then [] else PostOrder(t.left) + PostOrder(t.right) + [t.value]
  }

  /** `getHeight(node)`: 0 for an absent node, a leaf has height 1. */
  function Height(t: RBTree): (h: nat)
  {
    if t.Nil? then 0 else 1 + (if Height(t.left) > Height(t.right) then Height(t.left) else Height(t.right))
  }

  /** The black nodes on the leftmost path; on a balanced subtree every
      path from the root down to an absent child has this many. */
  function Bh(t: RBTree): nat {
    if t.Nil? then 0 else Bh(t.left) + (if t.color == Black then 1 else 0)
  }

  ghost predicate BlackBalanced(t: RBTree) {
    t.Nil? || (BlackBalanced(t.left) && BlackBalanced(t.right) && Bh(t.left) == Bh(t.right))
  }

  /** No red node has a red child. */
  ghost predicate NoRedRed(t: RBTree) {
    t.Nil? ||
    (NoRedRed(t.left) && NoRedRed(t.right) &&
     (t.color == Red ==> !IsRed(t.left) && !IsRed(t.right)))
  }

  /** The invariant between two public operations: BST order without
      duplicates, a black root, no red node with a red child, and the same
      number of black nodes on every path. */
  ghost predicate IsRB(t: RBTree) {
    Sorted(InOrder(t)) && !IsRed(t) && NoRedRed(t) && BlackBalanced(t)
  }

  /** `rotateLeft(node)`: the right child takes the node's place and the
      node becomes its left child; no colour changes. */
  function RotateLeft(t: RBTree): (r: RBTree)
    requires t.Node? && t.right.Node?
    ensures r.Node? && r.left.Node?
    ensures InOrder(r) == InOrder(t)
  {
    var c := t.right;
    Node(c.color, Node(t.color, t.left, t.value, c.left), c.value, c.right)
  }

  /** `rotateRight(node)`: the mirror image of RotateLeft. */
  function RotateRight(t: RBTree): (r: RBTree)
    requires t.Node? && t.left.Node?
    ensures r.Node? && r.right.Node?
    ensures InOrder(r) == InOrder(t)
  {
    var c := t.left;
    Node(c.color, c.left, c.value, Node(t.color, c.right, t.value, t.right))
  }

  /** The two rotations undo each other and keep every colour where it was
      on its node. */
  lemma RotationsInverse(t: RBTree)
    requires t.Node? && t.right.Node?
    ensures RotateRight(RotateLeft(t)) == t
    ensures RotateLeft(t).color == t.right.color && RotateLeft(t).left.color == t.color
  {
  }

  /** The keys in order, each with the colour of its node. */
  function Colored(t: RBTree): seq<(string, Color)> {
    if t.Nil? then [] else Colored(t.left) + [(t.value, t.color)] + Colored(t.right)
  }

  /** Neither rotation moves a key out of order or changes the colour of
      the node holding it. */
  lemma RotateLeftKeepsColors(t: RBTree)
    requires t.Node? && t.right.Node?
    ensures Colored(RotateLeft(t)) == Colored(t)
  {
    var c := t.right;
    var a, b, d := Colored(t.left), Colored(c.left), Colored(c.right);
    var x, y := [(t.value, t.color)], [(c.value, c.color)];
    var r := RotateLeft(t);
    assert Colored(r.left) == a + x + b;
    assert Colored(r) == a + x + b + y + d;
    assert Colored(c) == b + y + d;
    RotationRegroup(a, x, b, y, d);
  }

  lemma RotateRightKeepsColors(t: RBTree)
    requires t.Node? && t.left.Node?
    ensures Colored(RotateRight(t)) == Colored(t)
  {
    var c := t.left;
    var a, b, d := Colored(c.left), Colored(c.right), Colored(t.right);
    var x, y := [(c.value, c.color)], [(t.value, t.color)];
    var r := RotateRight(t);
    assert Colored(r.right) == b + y + d;
    assert Colored(r) == a + x + (b + y + d);
    assert Colored(c) == a + x + b;
    RotationRegroup(a, x, b, y, d);
  }

  /** Hang a subtree below the node a frame describes. */
  function Attach(t: RBTree, f: Frame): (r: RBTree)
    ensures r.Node? && r.color == f.color && r.value == f.value
  {
    match f
    case LeftOf(c, v, rt) => Node(c, t, v, rt)
    case RightOf(c, lt, v) => Node(c, lt, v, t)
  }

  /** The other child of the node a frame describes. */
  function Sibling(f: Frame): RBTree {
    match f
    case LeftOf(_, _, rt) => rt
    case RightOf(_, lt, _) => lt
  }

  /** Rebuild the whole tree around a focused subtree. */
  function Plug(t: RBTree, p: seq<Frame>): RBTree
    decreases |p|
  {
    if p == [] then t else Plug(Attach(t, p[0]), p[1..])
  }

  /** A focused subtree with its path to the root: a Java node together
      with everything its parent pointers lead to. */
  datatype Cursor = Cursor(node: RBTree, path: seq<Frame>)

  /** Rebuilding along a path made of two pieces. */
  lemma {:induction false} PlugAppend(t: RBTree, p: seq<Frame>, q: seq<Frame>)
    ensures Plug(t, p + q) == Plug(Plug(t, p), q)
    decreases |p|
  {
    if p == [] {
      assert p + q == q;
    } else {
      assert (p + q)[0] == p[0] && (p + q)[1..] == p[1..] + q;
      PlugAppend(Attach(t, p[0]), p[1..], q);
    }
  }

  /** The keys to the left and to the right of the focus. */
  function Before(p: seq<Frame>): seq<string>
    decreases |p|
  {
    if p == [] then []
    else match p[0]
      case LeftOf(_, _, _) => Before(p[1..])
      case RightOf(_, lt, v) => Before(p[1..]) + InOrder(lt) + [v]
  }

  function After(p: seq<Frame>): seq<string>
    decreases |p|
  {
    if p == [] then []
    else match p[0]
      case LeftOf(_, v, rt) => [v] + InOrder(rt) + After(p[1..])
      case RightOf(_, _, _) => After(p[1..])
  }

  /** Black-height bookkeeping along a path: plugging a balanced subtree of
      black height h gives a balanced tree. */
  ghost predicate BalancedAt(p: seq<Frame>, h: nat)
    decreases |p|
  {
    p == [] ||
    (BlackBalanced(Sibling(p[0])) && Bh(Sibling(p[0])) == h &&
     BalancedAt(p[1..], h + if p[0].color == Black then 1 else 0))
  }

  /** One frame of BalancedAt. */
  lemma BalancedAtHead(p: seq<Frame>, h: nat)
    requires p != []
    ensures BalancedAt(p, h) <==>
      BlackBalanced(Sibling(p[0])) && Bh(Sibling(p[0])) == h &&
      BalancedAt(p[1..], h + if p[0].color == Black then 1 else 0)
  {
  }

  /** The in-order keys of the rebuilt tree: the focus sits between the
      keys to its left and those to its right. */
  lemma {:induction false} PlugInOrder(t: RBTree, p: seq<Frame>)
    ensures InOrder(Plug(t, p)) == Before(p) + InOrder(t) + After(p)
    decreases |p|
  {
    if p != [] {
      PlugInOrder(Attach(t, p[0]), p[1..]);
      var b, a := Before(p[1..]), After(p[1..]);
      match p[0]
      case LeftOf(_, v, rt) =>
        assert After(p) == [v] + InOrder(rt) + a;
        ParentRegroup(b, InOrder(t), [v], InOrder(rt), a);
      case RightOf(_, lt, v) =>
        assert Before(p) == b + InOrder(lt) + [v];
        ParentRegroup(b, InOrder(lt), [v], InOrder(t), a);
    }
  }

  /** A rebuilt tree is balanced exactly when the focus is and the path
      expects its black height. */
  lemma {:induction false} PlugBalanced(t: RBTree, p: seq<Frame>)
    ensures BlackBalanced(Plug(t, p)) <==> BlackBalanced(t) && BalancedAt(p, Bh(t))
    decreases |p|
  {
    if p != [] {
      PlugBalanced(Attach(t, p[0]), p[1..]);
    }
  }

  /** The root of a rebuilt tree is the top frame's node. */
  lemma {:induction false} PlugRoot(t: RBTree, p: seq<Frame>)
    ensures p == [] ==> Plug(t, p) == t
    ensures p != [] ==> Plug(t, p).Node? && Plug(t, p).color == p[|p| - 1].color
    decreases |p|
  {
    if p != [] {
      PlugRoot(Attach(t, p[0]), p[1..]);
    }
  }

  /** What a tree without red-red pairs says about a focused subtree. */
  lemma {:induction false} NoRedRedInside(t: RBTree, p: seq<Frame>)
    requires NoRedRed(Plug(t, p))
    ensures NoRedRed(t)
    ensures p != [] ==> NoRedRed(Attach(t, p[0])) && NoRedRed(Sibling(p[0]))
    ensures p != [] && p[0].color == Red ==> !IsRed(Sibling(p[0]))
    ensures p != [] && IsRed(t) ==> p[0].color == Black
    decreases |p|
  {
    if p != [] {
      NoRedRedInside(Attach(t, p[0]), p[1..]);
    }
  }

  /** Replacing the focus by a subtree without red-red pairs keeps the whole
      tree free of them, provided a red replacement does not sit under a
      red parent. */
  lemma {:induction false} NoRedRedReplace(a: RBTree, b: RBTree, p: seq<Frame>)
    requires NoRedRed(Plug(a, p)) && NoRedRed(b)
    requires p != [] && IsRed(b) ==> p[0].color == Black
    ensures NoRedRed(Plug(b, p))
    decreases |p|
  {
    if p != [] {
      NoRedRedInside(a, p);
      NoRedRedInside(Attach(a, p[0]), p[1..]);
      NoRedRedReplace(Attach(a, p[0]), Attach(b, p[0]), p[1..]);
    }
  }

  /** Replacing the focus by a subtree with the same keys keeps the keys of
      the whole tree. */
  lemma InOrderReplace(a: RBTree, b: RBTree, p: seq<Frame>)
    requires InOrder(a) == InOrder(b)
    ensures InOrder(Plug(a, p)) == InOrder(Plug(b, p))
  {
    PlugInOrder(a, p);
    PlugInOrder(b, p);
  }

  /** Painting a root black never creates a red-red pair and keeps the
      subtree balanced. */
  lemma PaintBlack(t: RBTree)
    ensures NoRedRed(t) ==> NoRedRed(Paint(t, Black))
    ensures BlackBalanced(t) <==> BlackBalanced(Paint(t, Black))
    ensures t.Node? ==> Bh(Paint(t, Black)) == Bh(t.left) + 1
  {
  }

  /** The three traversals list the same keys, each as often. */
  lemma {:induction false} TraversalsArePermutations(t: RBTree)
    ensures multiset(PreOrder(t)) == multiset(InOrder(t))
    ensures multiset(PostOrder(t)) == multiset(InOrder(t))
  {
    if t.Node? {
      TraversalsArePermutations(t.left);
      TraversalsArePermutations(t.right);
    }
  }

  /** `searchNode(node, value)`: stop at an absent node or at the key,
      otherwise go left below a larger key and right below a smaller one.
      The cursor returned is a position in the same tree. */
  function SearchNode(t: RBTree, v: string, p: seq<Frame>): (r: Cursor)
    ensures Plug(r.node, r.path) == Plug(t, p)
    ensures r.node.Node? ==> r.node.value == v && v in InOrder(t)
    decreases t
  {
    if t.Nil? || t.value == v then Cursor(t, p)
    else if CompareTo(v, t.value) < 0 then SearchNode(t.left, v, [LeftOf(t.color, t.value, t.right)] + p)
    else SearchNode(t.right, v, [RightOf(t.color, t.left, t.value)] + p)
  }

  /** In a search tree, searchNode finds every key the tree holds. */
  lemma {:induction false} SearchNodeFinds(t: RBTree, v: string, p: seq<Frame>)
    requires Sorted(InOrder(t))
    ensures SearchNode(t, v, p).node.Node? <==> v in InOrder(t)
    decreases t
  {
    if t.Node? && t.value != v {
      SortedConcat(InOrder(t.left), t.value, InOrder(t.right));
      CompareToAntisymmetric(v, t.value);
      LessTrichotomy(v, t.value);
      if CompareTo(v, t.value) < 0 {
        SearchNodeFinds(t.left, v, [LeftOf(t.color, t.value, t.right)] + p);
        assert v !in InOrder(t.right);
      } else {
        SearchNodeFinds(t.right, v, [RightOf(t.color, t.left, t.value)] + p);
        assert v !in InOrder(t.left);
      }
    }
  }

  /** A balanced subtree whose leftmost path has b black nodes holds at
      least 2^b - 1 keys. */
  lemma {:induction false} KeysAtLeastBh(t: RBTree)
    requires BlackBalanced(t)
    ensures Pow2(Bh(t)) <= |InOrder(t)| + 1
  {
    if t.Node? {
      KeysAtLeastBh(t.left);
      KeysAtLeastBh(t.right);
      assert Pow2(Bh(t.left) + 1) == 2 * Pow2(Bh(t.left));
    }
  }

  /** Without red-red pairs, a path holds at most one red node per black
      one, plus a red root. */
  lemma {:induction false} HeightAtMostTwiceBh(t: RBTree)
    requires BlackBalanced(t) && NoRedRed(t)
    ensures Height(t) <= 2 * Bh(t) + (if IsRed(t) then 1 else 0)
  {
    if t.Node? {
      HeightAtMostTwiceBh(t.left);
      HeightAtMostTwiceBh(t.right);
    }
  }

  /** A subtree of height h holds fewer than 2^h keys. */
  lemma {:induction false} KeysAtMost(t: RBTree)
    ensures |InOrder(t)| < Pow2(Height(t))
  {
    if t.Node? {
      KeysAtMost(t.left);
      KeysAtMost(t.right);
      PowMonotone(Height(t.left), Height(t) - 1);
      PowMonotone(Height(t.right), Height(t) - 1);
    }
  }

  /** The size of a red-black tree bounds its height from both sides: at
      most twice the height of a perfectly balanced tree of the same size. */
  lemma HeightBounds(t: RBTree)
    requires IsRB(t)
    ensures Pow2((Height(t) + 1) / 2) <= |InOrder(t)| + 1
    ensures |InOrder(t)| < Pow2(Height(t))
  {
    HeightAtMostTwiceBh(t);
    KeysAtLeastBh(t);
    PowMonotone((Height(t) + 1) / 2, Bh(t));
    KeysAtMost(t);
  }

  /** A balanced subtree without black nodes on its paths is absent or a
      single red key. */
  lemma NoBlackIsSmall(t: RBTree)
    requires BlackBalanced(t) && NoRedRed(t) && Bh(t) == 0
    ensures Height(t) == |InOrder(t)| <= 1
  {
    if t.Node? {
      assert t.left.Nil? && t.right.Nil? by {
        assert t.color == Red;
        assert !IsRed(t.left) && !IsRed(t.right);
        assert Bh(t.left) == 0 && Bh(t.right) == 0;
      }
    }
  }

  /** Three keys always make a red-black tree of height 2, whatever the
      order of insertion and whichever rotation it took. */
  lemma ThreeKeysHeightTwo(t: RBTree)
    requires IsRB(t) && |InOrder(t)| == 3
    ensures Height(t) == 2
  {
    var l, r := t.left, t.right;
    assert |InOrder(l)| + |InOrder(r)| == 2;
    if Bh(l) == 0 {
      NoBlackIsSmall(l);
      NoBlackIsSmall(r);
    } else {
      KeysAtLeastBh(l);
      KeysAtLeastBh(r);
      PowMonotone(1, Bh(l));
      assert |InOrder(l)| == 1 && |InOrder(r)| == 1;
      assert l.left.Nil? && l.right.Nil?;
      assert r.left.Nil? && r.right.Nil?;
    }
  }
}
