/**
 * The AVL engine of AVLTree.java.
 *
 * The Java code rebuilds each subtree recursively and returns its new root,
 * so nodes are values here: every operation returns the new subtree. A node
 * keeps the height the Java code caches in `Node.height`; the invariants say
 * when that cache is right and when a node is balanced.
 */
module AVL {
  import opened Keys

  /** AVLTree.Node; `Nil` is Java's null child. */
  datatype Tree = Nil | Node(value: string, left: Tree, right: Tree, height: int)

  function Max(a: int, b: int): int {
    if a > b then a else b
  }

  /** `height(node)`: the cached height, 0 for an absent node. */
  function Height(t: Tree): int {
    if t.Nil? then 0 else t.height
  }

  /** `balance(node)`: height(right) - height(left), 0 for an absent node. */
  function Balance(t: Tree): int {
    if t.Nil? then 0 else Height(t.right) - Height(t.left)
  }

  /** The height by definition: 0 for an absent node, a leaf has height 1. */
  function TrueHeight(t: Tree): nat {
    if t.Nil? then 0 else 1 + Max(TrueHeight(t.left), TrueHeight(t.right))
  }

  /** The keys in `traverseInOrder` order: left subtree, node, right
      subtree. */
  function InOrder(t: Tree): (r: seq<string>)
    ensures r == [] <==> t.Nil?
  {
    if t.Nil? then [] else InOrder(t.left) + [t.value] + InOrder(t.right)
  }

  /** The keys in `traversePreOrder` order: one per node, the node first. */
  function PreOrder(t: Tree): (r: seq<string>)
  {
    if t.Nil? then [] else [t.value] + PreOrder(t.left) + PreOrder(t.right)
  }

  /** The keys in `traversePostOrder` order: one per node, the node last. */
  function PostOrder(t: Tree): (r: seq<string>)
  {
    if t.Nil? then [] else PostOrder(t.left) + PostOrder(t.right) + [t.value]
  }

  /** Every cached height is one more than the larger cached height of the
      node's children. */
  ghost predicate HeightsCached(t: Tree) {
    t.Nil? || (HeightsCached(t.left) && HeightsCached(t.right) &&
               t.height == 1 + Max(Height(t.left), Height(t.right)))
  }

  /** Every node has balance factor -1, 0 or 1. */
  ghost predicate Balanced(t: Tree) {
    t.Nil? || (-1 <= Balance(t) <= 1 && Balanced(t.left) && Balanced(t.right))
  }

  /** The invariant between two public operations: BST order without
      duplicates, correct cached heights, and the AVL balance condition. */
  ghost predicate IsAvl(t: Tree) {
    HeightsCached(t) && Balanced(t) && Sorted(InOrder(t))
  }

  lemma {:induction false} CachedHeightIsTrue(t: Tree)
    requires HeightsCached(t)
    ensures Height(t) == TrueHeight(t)
  {
    if t.Node? {
      CachedHeightIsTrue(t.left);
      CachedHeightIsTrue(t.right);
    }
  }

  lemma SubtreesAreAvl(t: Tree)
    requires IsAvl(t) && t.Node?
    ensures IsAvl(t.left) && IsAvl(t.right)
    ensures AllLess(InOrder(t.left), t.value) && AllGreater(InOrder(t.right), t.value)
  {
    SortedConcat(InOrder(t.left), t.value, InOrder(t.right));
  }

  /** `updateHeight(node)`: recompute the cached height from the children. */
  function UpdateHeight(t: Tree): (r: Tree)
    ensures InOrder(r) == InOrder(t)
    ensures t.Node? && HeightsCached(t.left) && HeightsCached(t.right) ==> HeightsCached(r)
  {
    if t.Nil? then t else t.(height := Max(Height(t.left), Height(t.right)) + 1)
  }

  /** `rightRotate(y)`: y's left child x takes y's place, y becomes x's right
      child and takes over x's right subtree; y's height is recomputed before
      x's. */
  function RightRotate(y: Tree): (r: Tree)
    requires y.Node? && y.left.Node?
    ensures r.Node? && r.right.Node?
    ensures InOrder(r) == InOrder(y)
    ensures HeightsCached(y.left) && HeightsCached(y.right) ==> HeightsCached(r)
  {
    var x := y.left;
    var t2 := x.right;
    var y' := UpdateHeight(y.(left := t2));
    UpdateHeight(x.(right := y'))
  }

  /** `leftRotate(x)`: the mirror image of RightRotate. */
  function LeftRotate(x: Tree): (r: Tree)
    requires x.Node? && x.right.Node?
    ensures r.Node? && r.left.Node?
    ensures InOrder(r) == InOrder(x)
    ensures HeightsCached(x.left) && HeightsCached(x.right) ==> HeightsCached(r)
  {
    var y := x.right;
    var t2 := y.left;
    var x' := UpdateHeight(x.(right := t2));
    UpdateHeight(y.(left := x'))
  }

  lemma PositiveHeightIsNode(t: Tree)
    requires HeightsCached(t)
    ensures t.Node? <==> Height(t) > 0
  {
    CachedHeightIsTrue(t);
  }

  /** `balanceTree(root)`: refresh the height, then apply the RR, RL, LL or
      LR rotation chosen by the node's balance and its heavy child's balance. */
  function BalanceTree(t: Tree): (r: Tree)
    requires t.Node? && HeightsCached(t.left) && HeightsCached(t.right)
    ensures r.Node? && HeightsCached(r)
    ensures InOrder(r) == InOrder(t)
  {
    var n := UpdateHeight(t);
    PositiveHeightIsNode(n.left);
    PositiveHeightIsNode(n.right);
    if Balance(n) > 1 then
      PositiveHeightIsNode(n.right.left);
      PositiveHeightIsNode(n.right.right);
      if Balance(n.right) < 0 then LeftRotate(n.(right := RightRotate(n.right)))  // RL
      else LeftRotate(n)                                                          // RR
    else if Balance(n) < -1 then
      PositiveHeightIsNode(n.left.left);
      PositiveHeightIsNode(n.left.right);
      if Balance(n.left) > 0 then RightRotate(n.(left := LeftRotate(n.left)))     // LR
      else RightRotate(n)                                                         // LL
    else n
  }

  /** Cached heights are right and every node is balanced: the AVL shape,
      without the key order. */
  ghost predicate AvlShape(t: Tree) {
    HeightsCached(t) && Balanced(t)
  }

  /** RR case: a single left rotation of a node whose right subtree is two
      levels higher and not left-heavy. */
  lemma LeftRotateRebalances(n: Tree)
    requires n.Node? && AvlShape(n.left) && AvlShape(n.right)
    requires Height(n.right) == Height(n.left) + 2 && Balance(n.right) >= 0
    ensures n.right.Node? && AvlShape(LeftRotate(n))
    ensures Height(n.left) + 2 <= Height(LeftRotate(n)) <= Height(n.left) + 3
  {
    var hl := Height(n.left);
    PositiveHeightIsNode(n.left);
    PositiveHeightIsNode(n.right);
    var rc := n.right;
    var down := UpdateHeight(n.(right := rc.left));
    assert LeftRotate(n) == UpdateHeight(rc.(left := down));
    assert Height(rc.left) == hl || Height(rc.left) == hl + 1;
    assert AvlShape(down);
  }

  /** RL case: a right rotation of the right child, then a left rotation of
      the node, when the right subtree is two levels higher and left-heavy. */
  lemma RightLeftRotateRebalances(n: Tree)
    requires n.Node? && AvlShape(n.left) && AvlShape(n.right)
    requires Height(n.right) == Height(n.left) + 2 && Balance(n.right) < 0
    ensures n.right.Node? && n.right.left.Node?
    ensures AvlShape(LeftRotate(n.(right := RightRotate(n.right))))
    ensures Height(LeftRotate(n.(right := RightRotate(n.right)))) == Height(n.left) + 2
  {
    var hl := Height(n.left);
    PositiveHeightIsNode(n.right);
    var rc := n.right;
    PositiveHeightIsNode(rc.left);
    PositiveHeightIsNode(rc.right);
    var rl := rc.left;
    assert AvlShape(rl);
    PositiveHeightIsNode(rl.left);
    PositiveHeightIsNode(rl.right);
    var lower := UpdateHeight(rc.(left := rl.right));
    var mid := UpdateHeight(rl.(right := lower));
    assert RightRotate(rc) == mid;
    var down := UpdateHeight(n.(right := rl.left));
    assert LeftRotate(n.(right := mid)) == UpdateHeight(mid.(left := down));
    assert Height(lower) == hl + 1 && AvlShape(lower);
    assert Height(down) == hl + 1 && AvlShape(down);
  }

  /** LL case: the mirror image of the RR case. */
  lemma RightRotateRebalances(n: Tree)
    requires n.Node? && AvlShape(n.left) && AvlShape(n.right)
    requires Height(n.left) == Height(n.right) + 2 && Balance(n.left) <= 0
    ensures n.left.Node? && AvlShape(RightRotate(n))
    ensures Height(n.right) + 2 <= Height(RightRotate(n)) <= Height(n.right) + 3
  {
    var hr := Height(n.right);
    PositiveHeightIsNode(n.right);
    PositiveHeightIsNode(n.left);
    var lc := n.left;
    var down := UpdateHeight(n.(left := lc.right));
    assert RightRotate(n) == UpdateHeight(lc.(right := down));
    assert Height(lc.right) == hr || Height(lc.right) == hr + 1;
    assert AvlShape(down);
  }

  /** LR case: the mirror image of the RL case. */
  lemma LeftRightRotateRebalances(n: Tree)
    requires n.Node? && AvlShape(n.left) && AvlShape(n.right)
    requires Height(n.left) == Height(n.right) + 2 && Balance(n.left) > 0
    ensures n.left.Node? && n.left.right.Node?
    ensures AvlShape(RightRotate(n.(left := LeftRotate(n.left))))
    ensures Height(RightRotate(n.(left := LeftRotate(n.left)))) == Height(n.right) + 2
  {
    var hr := Height(n.right);
    PositiveHeightIsNode(n.left);
    var lc := n.left;
    PositiveHeightIsNode(lc.left);
    PositiveHeightIsNode(lc.right);
    var lr := lc.right;
    assert AvlShape(lr);
    PositiveHeightIsNode(lr.left);
    PositiveHeightIsNode(lr.right);
    var lower := UpdateHeight(lc.(right := lr.left));
    var mid := UpdateHeight(lr.(left := lower));
    assert LeftRotate(lc) == mid;
    var down := UpdateHeight(n.(left := lr.right));
    assert RightRotate(n.(left := mid)) == UpdateHeight(mid.(right := down));
    assert Height(lower) == hr + 1 && AvlShape(lower);
    assert Height(down) == hr + 1 && AvlShape(down);
  }

  /** The rebalancing step: two AVL subtrees whose heights differ by at most
      2 under a node yield an AVL subtree. No rotation happens when they
      differ by at most 1; a rotation lowers the height by at most 1. */
  lemma BalanceTreeRestores(t: Tree)
    requires t.Node? && AvlShape(t.left) && AvlShape(t.right)
    requires -2 <= Height(t.right) - Height(t.left) <= 2
    ensures AvlShape(BalanceTree(t))
    ensures var m := Max(Height(t.left), Height(t.right));
      m <= Height(BalanceTree(t)) <= m + 1
    ensures -1 <= Height(t.right) - Height(t.left) <= 1 ==>
      BalanceTree(t) == UpdateHeight(t)
  {
    var n := UpdateHeight(t);
    if Balance(n) > 1 {
      if Balance(n.right) < 0 {
        RightLeftRotateRebalances(n);
      } else {
        LeftRotateRebalances(n);
      }
    } else if Balance(n) < -1 {
      if Balance(n.left) > 0 {
        LeftRightRotateRebalances(n);
      } else {
        RightRotateRebalances(n);
      }
    }
  }

  /** Rebuilding a node after its left subtree changed height by at most one
      gives an AVL subtree whose height moved the same way by at most one. */
  lemma RebuildLeft(t: Tree, l': Tree)
    requires t.Node? && AvlShape(t.left) && AvlShape(t.right) && -1 <= Balance(t) <= 1
    requires IsAvl(l') && Sorted(InOrder(t.right))
    requires AllLess(InOrder(l'), t.value) && AllGreater(InOrder(t.right), t.value)
    requires -1 <= Height(l') - Height(t.left) <= 1
    ensures IsAvl(BalanceTree(t.(left := l')))
    ensures var m, h := Max(Height(t.left), Height(t.right)), Height(BalanceTree(t.(left := l')));
      (Height(l') >= Height(t.left) ==> m + 1 <= h <= m + 2) &&
      (Height(l') <= Height(t.left) ==> m <= h <= m + 1)
  {
    var res := BalanceTree(t.(left := l'));
    BalanceTreeRestores(t.(left := l'));
    SortedConcat(InOrder(l'), t.value, InOrder(t.right));
    var hl, hr, hl' := Height(t.left), Height(t.right), Height(l');
    if -1 <= hr - hl' <= 1 {
      assert Height(res) == 1 + Max(hl', hr);
    }
  }

  /** The mirror image of RebuildLeft. */
  lemma RebuildRight(t: Tree, r': Tree)
    requires t.Node? && AvlShape(t.left) && AvlShape(t.right) && -1 <= Balance(t) <= 1
    requires IsAvl(r') && Sorted(InOrder(t.left))
    requires AllLess(InOrder(t.left), t.value) && AllGreater(InOrder(r'), t.value)
    requires -1 <= Height(r') - Height(t.right) <= 1
    ensures IsAvl(BalanceTree(t.(right := r')))
    ensures var m, h := Max(Height(t.left), Height(t.right)), Height(BalanceTree(t.(right := r')));
      (Height(r') >= Height(t.right) ==> m + 1 <= h <= m + 2) &&
      (Height(r') <= Height(t.right) ==> m <= h <= m + 1)
  {
    var res := BalanceTree(t.(right := r'));
    BalanceTreeRestores(t.(right := r'));
    SortedConcat(InOrder(t.left), t.value, InOrder(r'));
    var hl, hr, hr' := Height(t.left), Height(t.right), Height(r');
    if -1 <= hr' - hl <= 1 {
      assert Height(res) == 1 + Max(hl, hr');
    }
  }

  /** On a node that is already a valid AVL subtree, balanceTree changes
      nothing. */
  lemma BalanceTreeIdle(t: Tree)
    requires t.Node? && IsAvl(t)
    ensures BalanceTree(t) == t
  {
  }

  /** The private recursive `insert(current, value)`. The equal-key branch
      returns the node rebalanced but otherwise untouched. */
  function InsertAt(t: Tree, v: string): (r: Tree)
    requires HeightsCached(t)
    ensures r.Node? && HeightsCached(r)
  {
    if t.Nil? then Node(v, Nil, Nil, 1)
    else if CompareTo(v, t.value) < 0 then BalanceTree(t.(left := InsertAt(t.left, v)))
    else if CompareTo(v, t.value) > 0 then BalanceTree(t.(right := InsertAt(t.right, v)))
    else BalanceTree(t)
  }

  /** Inserting into an AVL tree gives an AVL tree holding exactly one more
      key, whose height grew by at most one; a key already present leaves the
      tree as it was. */
  lemma {:induction false} InsertAtCorrect(t: Tree, v: string)
    requires IsAvl(t)
    ensures IsAvl(InsertAt(t, v))
    ensures v in InOrder(t) ==> InsertAt(t, v) == t
    ensures v !in InOrder(t) ==>
      multiset(InOrder(InsertAt(t, v))) == multiset(InOrder(t)) + multiset{v}
    ensures Height(t) <= Height(InsertAt(t, v)) <= Height(t) + 1
    decreases t, 1
  {
    if t.Node? {
      CompareToAntisymmetric(v, t.value);
      if CompareTo(v, t.value) < 0 {
        InsertLeft(t, v);
      } else if CompareTo(v, t.value) > 0 {
        InsertRight(t, v);
      } else {
        BalanceTreeIdle(t);
      }
    }
  }

  lemma {:induction false} InsertLeft(t: Tree, v: string)
    requires IsAvl(t) && t.Node? && Less(v, t.value)
    ensures IsAvl(InsertAt(t, v))
    ensures v in InOrder(t) ==> InsertAt(t, v) == t
    ensures v !in InOrder(t) ==>
      multiset(InOrder(InsertAt(t, v))) == multiset(InOrder(t)) + multiset{v}
    ensures Height(t) <= Height(InsertAt(t, v)) <= Height(t) + 1
    decreases t, 0
  {
    var l, x, r := t.left, t.value, t.right;
    var l' := InsertAt(l, v);
    assert InsertAt(t, v) == BalanceTree(t.(left := l'));
    SubtreesAreAvl(t);
    InsertAtCorrect(l, v);
    assert InOrder(t) == InOrder(l) + [x] + InOrder(r);
    if v in InOrder(l) {
      assert t.(left := l') == t;
      BalanceTreeIdle(t);
    } else {
      AllLessAfterAdd(InOrder(l), InOrder(l'), v, x);
      RebuildLeft(t, l');
      assert v !in InOrder(r) by { LessTrichotomy(v, x); }
      MultisetAddLeft(InOrder(l), InOrder(l'), x, InOrder(r), v);
    }
  }

  lemma {:induction false} InsertRight(t: Tree, v: string)
    requires IsAvl(t) && t.Node? && Less(t.value, v)
    ensures IsAvl(InsertAt(t, v))
    ensures v in InOrder(t) ==> InsertAt(t, v) == t
    ensures v !in InOrder(t) ==>
      multiset(InOrder(InsertAt(t, v))) == multiset(InOrder(t)) + multiset{v}
    ensures Height(t) <= Height(InsertAt(t, v)) <= Height(t) + 1
    decreases t, 0
  {
    var l, x, r := t.left, t.value, t.right;
    var r' := InsertAt(r, v);
    CompareToAntisymmetric(v, x);
    assert InsertAt(t, v) == BalanceTree(t.(right := r'));
    SubtreesAreAvl(t);
    InsertAtCorrect(r, v);
    assert InOrder(t) == InOrder(l) + [x] + InOrder(r);
    if v in InOrder(r) {
      assert t.(right := r') == t;
      BalanceTreeIdle(t);
    } else {
      AllGreaterAfterAdd(InOrder(r), InOrder(r'), v, x);
      RebuildRight(t, r');
      assert v !in InOrder(l) by { LessTrichotomy(v, x); }
      MultisetAddRight(InOrder(l), x, InOrder(r), InOrder(r'), v);
    }
  }

  /** The rightmost node: the node `getPredecessor` walks to. */
  function Rightmost(t: Tree): (r: Tree)
    requires t.Node?
    ensures r.Node? && r.right.Nil?
  {
    if t.right.Nil? then t else Rightmost(t.right)
  }

  /** In a BST the rightmost node holds the largest key. */
  lemma {:induction false} RightmostIsMaximum(t: Tree)
    requires t.Node? && Sorted(InOrder(t))
    ensures Rightmost(t).value in InOrder(t)
    ensures forall y :: y in InOrder(t) && y != Rightmost(t).value ==> Less(y, Rightmost(t).value)
  {
    SortedConcat(InOrder(t.left), t.value, InOrder(t.right));
    if t.right.Node? {
      RightmostIsMaximum(t.right);
      var m := Rightmost(t.right).value;
      forall y | y in InOrder(t.left) ensures Less(y, m) {
        LessTransitive(y, t.value, m);
      }
    }
  }

  /** `getPredecessor(root)`: follow right links to the rightmost node. */
  method GetPredecessor(t: Tree) returns (p: Tree)
    requires t.Node?
    ensures p == Rightmost(t)
  {
    p := t;
    while p.right.Node?
      invariant p.Node? && Rightmost(p) == Rightmost(t)
      decreases p
    {
      p := p.right;
    }
  }

  /** The private recursive `delete(root, key)`. A node with two children
      takes the key of its in-order predecessor, which is then deleted from
      the left subtree. */
  function DeleteAt(t: Tree, key: string): (r: Tree)
    requires HeightsCached(t)
    ensures HeightsCached(r)
  {
    if t.Nil? then Nil
    else if CompareTo(key, t.value) < 0 then BalanceTree(t.(left := DeleteAt(t.left, key)))
    else if CompareTo(key, t.value) > 0 then BalanceTree(t.(right := DeleteAt(t.right, key)))
    else if t.left.Nil? then t.right
    else if t.right.Nil? then t.left
    else
      var pred := Rightmost(t.left).value;
      BalanceTree(t.(value := pred, left := DeleteAt(t.left, pred)))
  }

  /** Deleting from an AVL tree gives an AVL tree without exactly that key,
      whose height shrank by at most one; an absent key leaves the tree as it
      was. */
  lemma {:induction false} DeleteAtCorrect(t: Tree, key: string)
    requires IsAvl(t)
    ensures IsAvl(DeleteAt(t, key))
    ensures key !in InOrder(t) ==> DeleteAt(t, key) == t
    ensures multiset(InOrder(DeleteAt(t, key))) == multiset(InOrder(t)) - multiset{key}
    ensures Height(t) - 1 <= Height(DeleteAt(t, key)) <= Height(t)
    decreases t, 1
  {
    if t.Node? {
      CompareToAntisymmetric(key, t.value);
      if CompareTo(key, t.value) < 0 {
        DeleteLeft(t, key);
      } else if CompareTo(key, t.value) > 0 {
        DeleteRight(t, key);
      } else if t.left.Nil? || t.right.Nil? {
        DeleteSplice(t);
      } else {
        DeleteWithPredecessor(t);
      }
    }
  }

  lemma {:induction false} DeleteLeft(t: Tree, key: string)
    requires IsAvl(t) && t.Node? && Less(key, t.value)
    ensures IsAvl(DeleteAt(t, key))
    ensures key !in InOrder(t) ==> DeleteAt(t, key) == t
    ensures multiset(InOrder(DeleteAt(t, key))) == multiset(InOrder(t)) - multiset{key}
    ensures Height(t) - 1 <= Height(DeleteAt(t, key)) <= Height(t)
    decreases t, 0
  {
    var l, x, r := t.left, t.value, t.right;
    var l' := DeleteAt(l, key);
    assert DeleteAt(t, key) == BalanceTree(t.(left := l'));
    SubtreesAreAvl(t);
    DeleteAtCorrect(l, key);
    AllLessAfterRemove(InOrder(l), InOrder(l'), key, x);
    RebuildLeft(t, l');
    assert key !in InOrder(r) by { LessTrichotomy(key, x); }
    MultisetRemoveLeft(InOrder(l), InOrder(l'), x, InOrder(r), key);
    if key !in InOrder(l) {
      assert t.(left := l') == t;
      BalanceTreeIdle(t);
    }
  }

  lemma {:induction false} DeleteRight(t: Tree, key: string)
    requires IsAvl(t) && t.Node? && Less(t.value, key)
    ensures IsAvl(DeleteAt(t, key))
    ensures key !in InOrder(t) ==> DeleteAt(t, key) == t
    ensures multiset(InOrder(DeleteAt(t, key))) == multiset(InOrder(t)) - multiset{key}
    ensures Height(t) - 1 <= Height(DeleteAt(t, key)) <= Height(t)
    decreases t, 0
  {
    var l, x, r := t.left, t.value, t.right;
    var r' := DeleteAt(r, key);
    CompareToAntisymmetric(key, x);
    assert DeleteAt(t, key) == BalanceTree(t.(right := r'));
    SubtreesAreAvl(t);
    DeleteAtCorrect(r, key);
    AllGreaterAfterRemove(InOrder(r), InOrder(r'), key, x);
    RebuildRight(t, r');
    assert key !in InOrder(l) by { LessTrichotomy(key, x); }
    MultisetRemoveRight(InOrder(l), x, InOrder(r), InOrder(r'), key);
    if key !in InOrder(r) {
      assert t.(right := r') == t;
      BalanceTreeIdle(t);
    }
  }

  /** The zero- or one-child case: the node is replaced by its only
      child, or by nothing. */
  lemma {:induction false} DeleteSplice(t: Tree)
    requires IsAvl(t) && t.Node? && (t.left.Nil? || t.right.Nil?)
    ensures IsAvl(DeleteAt(t, t.value))
    ensures multiset(InOrder(DeleteAt(t, t.value))) == multiset(InOrder(t)) - multiset{t.value}
    ensures Height(t) - 1 <= Height(DeleteAt(t, t.value)) <= Height(t)
  {
    var l, x, r := t.left, t.value, t.right;
    assert CompareTo(x, x) == 0;
    assert DeleteAt(t, x) == if l.Nil? then r else l;
    SubtreesAreAvl(t);
    CachedHeightIsTrue(l);
    CachedHeightIsTrue(r);
    assert Height(t) == 1 + Max(Height(l), Height(r));
    MultisetRemoveSplice(InOrder(l), x, InOrder(r));
  }

  /** The two-children case: the node takes its predecessor's key, and the
      predecessor leaves the left subtree. */
  lemma {:induction false} DeleteWithPredecessor(t: Tree)
    requires IsAvl(t) && t.Node? && t.left.Node? && t.right.Node?
    ensures IsAvl(DeleteAt(t, t.value))
    ensures multiset(InOrder(DeleteAt(t, t.value))) == multiset(InOrder(t)) - multiset{t.value}
    ensures Height(t) - 1 <= Height(DeleteAt(t, t.value)) <= Height(t)
    decreases t, 0
  {
    var l, x, r := t.left, t.value, t.right;
    var pred := Rightmost(l).value;
    var l' := DeleteAt(l, pred);
    assert DeleteAt(t, x) == BalanceTree(t.(value := pred, left := l'));
    SubtreesAreAvl(t);
    RightmostIsMaximum(l);
    DeleteAtCorrect(l, pred);
    SortedNoDuplicates(InOrder(l), pred);
    AllLessAfterRemovingMaximum(InOrder(l), InOrder(l'), pred);
    assert AllGreater(InOrder(r), pred) by {
      forall y | y in InOrder(r) ensures Less(pred, y) {
        LessTransitive(pred, x, y);
      }
    }
    RebuildLeft(t.(value := pred), l');
    SortedNoDuplicates(InOrder(t), x);
    MultisetReplaceByPredecessor(InOrder(l), InOrder(l'), pred, x, InOrder(r));
  }

  /** The private recursive `search(current, value)`: the node holding the
      key, or null. */
  function SearchAt(t: Tree, v: string): (r: Tree)
    ensures r.Nil? || r.value == v
  {
    if t.Nil? || v == t.value then t
    else if CompareTo(v, t.value) < 0 then SearchAt(t.left, v)
    else SearchAt(t.right, v)
  }

  /** In a BST, search finds a node exactly when the key is stored. */
  lemma {:induction false} SearchAtCorrect(t: Tree, v: string)
    requires Sorted(InOrder(t))
    ensures SearchAt(t, v).Node? <==> v in InOrder(t)
  {
    if t.Node? && v != t.value {
      SortedConcat(InOrder(t.left), t.value, InOrder(t.right));
      LessTrichotomy(v, t.value);
      if CompareTo(v, t.value) < 0 {
        SearchAtCorrect(t.left, v);
        assert v !in InOrder(t.right);
      } else {
        SearchAtCorrect(t.right, v);
        assert v !in InOrder(t.left);
      }
    }
  }

  /** The three traversals list the same keys, each as often. */
  lemma {:induction false} TraversalsArePermutations(t: Tree)
    ensures multiset(PreOrder(t)) == multiset(InOrder(t))
    ensures multiset(PostOrder(t)) == multiset(InOrder(t))
  {
    if t.Node? {
      TraversalsArePermutations(t.left);
      TraversalsArePermutations(t.right);
    }
  }

  /** The fewest keys a subtree of height h can hold when every node is
      balanced: one root, a child of height h - 1 and one of height h - 2. */
  function MinKeys(h: nat): nat {
    if h == 0 then 0 else if h == 1 then 1 else MinKeys(h - 1) + MinKeys(h - 2) + 1
  }

  lemma {:induction false} MinKeysMonotone(a: nat, b: nat)
    requires a <= b
    ensures MinKeys(a) <= MinKeys(b)
    decreases b
  {
    if a < b {
      MinKeysMonotone(a, b - 1);
    }
  }

  /** A subtree of height h holds fewer than 2^h keys. */
  lemma {:induction false} KeysAtMost(t: Tree)
    ensures |InOrder(t)| < Pow2(TrueHeight(t))
  {
    if t.Node? {
      KeysAtMost(t.left);
      KeysAtMost(t.right);
      var h := TrueHeight(t) - 1;
      PowMonotone(TrueHeight(t.left), h);
      PowMonotone(TrueHeight(t.right), h);
    }
  }

  /** A balanced subtree of height h holds at least MinKeys(h) keys: the
      height of an AVL tree grows only logarithmically with its size. */
  lemma {:induction false} KeysAtLeast(t: Tree)
    requires AvlShape(t)
    ensures |InOrder(t)| >= MinKeys(TrueHeight(t))
  {
    if t.Node? {
      assert AvlShape(t.left) && AvlShape(t.right);
      KeysAtLeast(t.left);
      KeysAtLeast(t.right);
      CachedHeightIsTrue(t.left);
      CachedHeightIsTrue(t.right);
      var hl, hr := TrueHeight(t.left), TrueHeight(t.right);
      if TrueHeight(t) >= 2 {
        if hl >= hr {
          MinKeysMonotone(TrueHeight(t) - 2, hr);
        } else {
          MinKeysMonotone(TrueHeight(t) - 2, hl);
        }
      }
    }
  }

  /** The size of an AVL tree bounds its height from both sides. */
  lemma HeightBounds(t: Tree)
    requires IsAvl(t)
    ensures Height(t) == TrueHeight(t)
    ensures MinKeys(TrueHeight(t)) <= |InOrder(t)| < Pow2(TrueHeight(t))
  {
    CachedHeightIsTrue(t);
    KeysAtMost(t);
    KeysAtLeast(t);
  }

  /** Three keys always make an AVL tree of height 2, whatever the order of
      insertion and whichever rotation it took. */
  lemma ThreeKeysHeightTwo(t: Tree)
    requires IsAvl(t) && |InOrder(t)| == 3
    ensures Height(t) == 2
  {
    HeightBounds(t);
    var h := TrueHeight(t);
    if h < 2 {
      PowMonotone(h, 1);
    } else if h > 2 {
      MinKeysMonotone(3, h);
    }
  }

  /** AVLTree: the root of the node structure and the number of keys held. */
  class AVLTree {
    var root: Tree
    var size: int

    /** The class invariant: an AVL tree, and `size` counts its keys. */
    ghost predicate Valid()
      reads this
    {
      IsAvl(root) && size == |InOrder(root)|
    }

    constructor()
      ensures Valid() && root == Nil && size == 0
    {
      root := Nil;
      size := 0;
    }

    /** The keys held. */
    ghost function Contents(): set<string>
      reads this
    {
      Elements(InOrder(root))
    }

    /** `search(value)`: whether the key is stored. */
    function Search(v: string): (found: bool)
      reads this
      requires Valid()
      ensures found <==> v in InOrder(root)
    {
      SearchAtCorrect(root, v);
      SearchAt(root, v).Node?
    }

    /** `insert(value)`: a duplicate is refused; otherwise the key is added
        and the size grows by one. */
    method Insert(v: string) returns (inserted: bool)
      requires Valid()
      modifies this
      ensures Valid()
      ensures inserted <==> v !in old(Contents())
      ensures root == if inserted then InsertAt(old(root), v) else old(root)
      ensures Contents() == old(Contents()) + {v}
      ensures size == old(size) + if inserted then 1 else 0
      ensures old(Height(root)) <= Height(root) <= old(Height(root)) + 1
    {
      if Search(v) {
        return false;
      }
      var r := InsertAt(root, v);
      InsertAtCorrect(root, v);
      MultisetAddCount(InOrder(root), InOrder(r), v);
      ElementsAdd(InOrder(root), InOrder(r), v);
      root := r;
      size := size + 1;
      inserted := true;
    }

    /** `delete(value)`: an absent key is refused; otherwise the key is
        removed and the size shrinks by one. */
    method Delete(v: string) returns (deleted: bool)
      requires Valid()
      modifies this
      ensures Valid()
      ensures deleted <==> v in old(Contents())
      ensures root == if deleted then DeleteAt(old(root), v) else old(root)
      ensures Contents() == old(Contents()) - {v}
      ensures size == old(size) - if deleted then 1 else 0
      ensures old(Height(root)) - 1 <= Height(root) <= old(Height(root))
    {
      if !Search(v) {
        return false;
      }
      var r := DeleteAt(root, v);
      DeleteAtCorrect(root, v);
      MultisetRemoveCount(InOrder(root), InOrder(r), v);
      SortedNoDuplicates(InOrder(root), v);
      ElementsRemove(InOrder(root), InOrder(r), v);
      root := r;
      size := size - 1;
      deleted := true;
    }

    /** `getHeight()`: the cached height of the root is the true height. */
    function GetHeight(): (h: int)
      reads this
      requires Valid()
      ensures h == TrueHeight(root)
    {
      CachedHeightIsTrue(root);
      Height(root)
    }

    /** `getSize()`: the number of keys held. */
    function GetSize(): (n: int)
      reads this
      requires Valid()
      ensures n == |InOrder(root)| == |multiset(InOrder(root))|
    {
      size
    }

    /** `traverseInOrder()`, as the sequence of keys it prints: strictly
        increasing. */
    function TraverseInOrder(): (keys: seq<string>)
      reads this
      requires Valid()
      ensures Sorted(keys) && |keys| == size
      ensures forall v :: v in keys <==> Search(v)
    {
      InOrder(root)
    }

    /** `traversePreOrder()`: every key once, the root first. */
    function TraversePreOrder(): (keys: seq<string>)
      reads this
      requires Valid()
      ensures multiset(keys) == multiset(InOrder(root))
      ensures root.Node? ==> keys[0] == root.value
    {
      TraversalsArePermutations(root);
      PreOrder(root)
    }

    /** `traversePostOrder()`: every key once, the root last. */
    function TraversePostOrder(): (keys: seq<string>)
      reads this
      requires Valid()
      ensures multiset(keys) == multiset(InOrder(root))
      ensures root.Node? ==> keys[|keys| - 1] == root.value
    {
      TraversalsArePermutations(root);
      PostOrder(root)
    }
  }

  /** The four rotation tests: three distinct keys inserted in any order
      give size 3 and height 2. */
  method ThreeInsertions(a: string, b: string, c: string) returns (size: int, height: int)
    requires a != b && b != c && a != c
    ensures size == 3 && height == 2
  {
    var tree := new AVLTree();
    var _ := tree.Insert(a);
    assert tree.Contents() == {a};
    var _ := tree.Insert(b);
    assert tree.Contents() == {a, b};
    var _ := tree.Insert(c);
    assert tree.Contents() == {a, b, c};
    ThreeKeysHeightTwo(tree.root);
    size := tree.GetSize();
    height := tree.GetHeight();
  }

  /** The empty-tree test: size 0, height 0, and deletion refused. */
  method EmptyTree() returns (size: int, height: int, deleted: bool)
    ensures size == 0 && height == 0 && !deleted
  {
    var tree := new AVLTree();
    size := tree.GetSize();
    height := tree.GetHeight();
    deleted := tree.Delete("Any");
  }
}
