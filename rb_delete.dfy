/**
 * Deletion from RedBlackTree.java: getMinimum, deleteNode, which unlinks a
 * node with at most one child, and fixAfterDeletion, which repairs the
 * black height that unlinking a black node takes from one side.
 *
 * An absent child is the black `Nil` at a known position (a cursor with a
 * `Nil` focus), as in the textbook algorithm this code follows.
 */
module RedBlackDelete {
  import opened Keys
  import opened RedBlack

  /** The loop invariant of fixAfterDeletion: the focus subtree is balanced
      but one black node short of what its position expects; painting the
      focus black removes the only red-red pair the tree may have; and the
      root, if it is not the focus, is black. */
  ghost predicate DeleteFixInv(x: RBTree, p: seq<Frame>) {
    BlackBalanced(x) && (p != [] ==> BalancedAt(p, Bh(x) + 1)) &&
    NoRedRed(Plug(Paint(x, Black), p)) &&
    (p != [] ==> p[|p| - 1].color == Black)
  }

  /** Case 1 with the focus a left child: the red sibling turns black, the
      parent red, and the parent rotates left. The focus keeps its subtree;
      its new sibling is the old sibling's left child. */
  function RedSiblingLeft(p: seq<Frame>): (r: seq<Frame>)
    requires p != [] && p[0].LeftOf? && p[0].right.Node?
    ensures |r| == |p| + 1 && r[0].LeftOf? && r[0].color == Red && r[0].right == p[0].right.left
  {
    var f, w := p[0], p[0].right;
    [LeftOf(Red, f.value, w.left), LeftOf(Black, w.value, w.right)] + p[1..]
  }

  /** Case 1 with the focus a right child. */
  function RedSiblingRight(p: seq<Frame>): (r: seq<Frame>)
    requires p != [] && p[0].RightOf? && p[0].left.Node?
    ensures |r| == |p| + 1 && r[0].RightOf? && r[0].color == Red && r[0].left == p[0].left.right
  {
    var f, w := p[0], p[0].left;
    [RightOf(Red, w.right, f.value), RightOf(Black, w.left, w.value)] + p[1..]
  }

  /** Cases 3 and 4 with the focus a left child below the frame `f`: if the
      black sibling's far child is black, its near child turns black, the
      sibling red, and the sibling rotates right; then the sibling takes the
      parent's colour, the parent and the far child turn black and the
      parent rotates left. The result takes the parent's place. */
  function FarRotationLeft(x: RBTree, f: Frame): (r: RBTree)
    requires f.LeftOf? && f.right.Node? && (IsRed(f.right.left) || IsRed(f.right.right))
    ensures r.Node? && InOrder(r) == InOrder(Attach(x, f))
  {
    var w := f.right;
    var w' := if !IsRed(w.right) then RotateRight(Node(Red, Paint(w.left, Black), w.value, w.right)) else w;
    RotateLeft(Node(Black, x, f.value, Node(f.color, w'.left, w'.value, Paint(w'.right, Black))))
  }

  /** Cases 3 and 4 with the focus a right child. */
  function FarRotationRight(x: RBTree, f: Frame): (r: RBTree)
    requires f.RightOf? && f.left.Node? && (IsRed(f.left.left) || IsRed(f.left.right))
    ensures r.Node? && InOrder(r) == InOrder(Attach(x, f))
  {
    var w := f.left;
    var w' := if !IsRed(w.left) then RotateLeft(Node(Red, w.left, w.value, Paint(w.right, Black))) else w;
    RotateRight(Node(Black, Node(f.color, Paint(w'.left, Black), w'.value, w'.right), f.value, x))
  }

  /** Cases 2 to 4 with a black sibling and the focus a left child. Case 2,
      both of the sibling's children black: the sibling turns red and the
      loop moves up to the parent. Otherwise the rotations end the loop at
      the root. */
  function BlackSiblingLeft(x: RBTree, p: seq<Frame>): (c: Cursor)
    requires p != [] && p[0].LeftOf? && p[0].right.Node?
    ensures !IsRed(p[0].right.left) && !IsRed(p[0].right.right) ==>
      c.path == p[1..] && c.node.Node? && c.node.left == x && c.node.right == Paint(p[0].right, Red)
    ensures IsRed(p[0].right.left) || IsRed(p[0].right.right) ==> c.path == []
  {
    var f, w := p[0], p[0].right;
    if !IsRed(w.left) && !IsRed(w.right) then Cursor(Node(f.color, x, f.value, Paint(w, Red)), p[1..])
    else Cursor(Plug(FarRotationLeft(x, f), p[1..]), [])
  }

  /** Cases 2 to 4 with the focus a right child. */
  function BlackSiblingRight(x: RBTree, p: seq<Frame>): (c: Cursor)
    requires p != [] && p[0].RightOf? && p[0].left.Node?
    ensures !IsRed(p[0].left.right) && !IsRed(p[0].left.left) ==>
      c.path == p[1..] && c.node.Node? && c.node.right == x && c.node.left == Paint(p[0].left, Red)
    ensures IsRed(p[0].left.right) || IsRed(p[0].left.left) ==> c.path == []
  {
    var f, w := p[0], p[0].left;
    if !IsRed(w.right) && !IsRed(w.left) then Cursor(Node(f.color, Paint(w, Red), f.value, x), p[1..])
    else Cursor(Plug(FarRotationRight(x, f), p[1..]), [])
  }

  /** What the invariant says about the focus's parent and sibling while the
      loop runs. */
  lemma DeleteFixFacts(x: RBTree, p: seq<Frame>)
    requires DeleteFixInv(x, p) && p != [] && !IsRed(x)
    ensures Paint(x, Black) == x && NoRedRed(x)
    ensures Sibling(p[0]).Node? && BlackBalanced(Sibling(p[0])) && Bh(Sibling(p[0])) == Bh(x) + 1
    ensures NoRedRed(Sibling(p[0])) && NoRedRed(Attach(x, p[0]))
    ensures p[0].color == Red ==> !IsRed(Sibling(p[0]))
    ensures BalancedAt(p[1..], Bh(x) + 1 + if p[0].color == Black then 1 else 0)
  {
    NoRedRedInside(x, p);
    BalancedAtHead(p, Bh(x) + 1);
  }

  /** Case 1 keeps the invariant and the keys and leaves a black sibling
      under a red parent. */
  lemma RedSiblingLeftKeeps(x: RBTree, p: seq<Frame>)
    requires DeleteFixInv(x, p) && p != [] && !IsRed(x) && p[0].LeftOf? && IsRed(p[0].right)
    ensures DeleteFixInv(x, RedSiblingLeft(p))
    ensures InOrder(Plug(x, RedSiblingLeft(p))) == InOrder(Plug(x, p))
    ensures RedSiblingLeft(p)[0].right.Node? && !IsRed(RedSiblingLeft(p)[0].right)
  {
    DeleteFixFacts(x, p);
    var f, w, q := p[0], p[0].right, RedSiblingLeft(p);
    var top := Node(Black, Node(Red, x, f.value, w.left), w.value, w.right);
    assert q[1..][0] == q[1] && q[1..][1..] == p[1..];
    assert Plug(x, q) == Plug(top, p[1..]);
    assert Bh(w.left) == Bh(x) + 1 && Bh(w.right) == Bh(x) + 1;
    BalancedAtHead(q, Bh(x) + 1);
    BalancedAtHead(q[1..], Bh(x) + 1);
    NoRedRedReplace(Attach(x, f), top, p[1..]);
    InOrderReplace(Attach(x, f), top, p[1..]);
  }

  lemma RedSiblingRightKeeps(x: RBTree, p: seq<Frame>)
    requires DeleteFixInv(x, p) && p != [] && !IsRed(x) && p[0].RightOf? && IsRed(p[0].left)
    ensures DeleteFixInv(x, RedSiblingRight(p))
    ensures InOrder(Plug(x, RedSiblingRight(p))) == InOrder(Plug(x, p))
    ensures RedSiblingRight(p)[0].left.Node? && !IsRed(RedSiblingRight(p)[0].left)
  {
    DeleteFixFacts(x, p);
    var f, w, q := p[0], p[0].left, RedSiblingRight(p);
    var top := Node(Black, w.left, w.value, Node(Red, w.right, f.value, x));
    assert q[1..][0] == q[1] && q[1..][1..] == p[1..];
    assert Plug(x, q) == Plug(top, p[1..]);
    assert Bh(w.left) == Bh(x) + 1 && Bh(w.right) == Bh(x) + 1;
    BalancedAtHead(q, Bh(x) + 1);
    BalancedAtHead(q[1..], Bh(x) + 1);
    NoRedRedReplace(Attach(x, f), top, p[1..]);
    InOrderReplace(Attach(x, f), top, p[1..]);
  }

  /** Case 2 keeps the invariant and the keys; the loop moves up one frame,
      and stops there when the parent was red. */
  lemma RecolorSiblingLeftKeeps(x: RBTree, p: seq<Frame>)
    requires DeleteFixInv(x, p) && p != [] && !IsRed(x) && p[0].LeftOf? && !IsRed(p[0].right)
    requires p[0].right.Node? && !IsRed(p[0].right.left) && !IsRed(p[0].right.right)
    ensures DeleteFixInv(BlackSiblingLeft(x, p).node, p[1..]) && BlackSiblingLeft(x, p).path == p[1..]
    ensures InOrder(Plug(BlackSiblingLeft(x, p).node, p[1..])) == InOrder(Plug(x, p))
    ensures p[0].color == Red ==> IsRed(BlackSiblingLeft(x, p).node)
  {
    DeleteFixFacts(x, p);
    var f, w := p[0], p[0].right;
    var n := Node(f.color, x, f.value, Paint(w, Red));
    assert BlackSiblingLeft(x, p).node == n;
    assert Bh(Paint(w, Red)) == Bh(x) && BlackBalanced(Paint(w, Red)) && NoRedRed(Paint(w, Red));
    assert Paint(n, Black) == Node(Black, x, f.value, Paint(w, Red));
    NoRedRedReplace(Attach(x, f), Paint(n, Black), p[1..]);
    InOrderReplace(Attach(x, f), n, p[1..]);
  }

  lemma RecolorSiblingRightKeeps(x: RBTree, p: seq<Frame>)
    requires DeleteFixInv(x, p) && p != [] && !IsRed(x) && p[0].RightOf? && !IsRed(p[0].left)
    requires p[0].left.Node? && !IsRed(p[0].left.left) && !IsRed(p[0].left.right)
    ensures DeleteFixInv(BlackSiblingRight(x, p).node, p[1..]) && BlackSiblingRight(x, p).path == p[1..]
    ensures InOrder(Plug(BlackSiblingRight(x, p).node, p[1..])) == InOrder(Plug(x, p))
    ensures p[0].color == Red ==> IsRed(BlackSiblingRight(x, p).node)
  {
    DeleteFixFacts(x, p);
    var f, w := p[0], p[0].left;
    var n := Node(f.color, Paint(w, Red), f.value, x);
    assert BlackSiblingRight(x, p).node == n;
    assert Bh(Paint(w, Red)) == Bh(x) && BlackBalanced(Paint(w, Red)) && NoRedRed(Paint(w, Red));
    assert Paint(n, Black) == Node(Black, Paint(w, Red), f.value, x);
    NoRedRedReplace(Attach(x, f), Paint(n, Black), p[1..]);
    InOrderReplace(Attach(x, f), n, p[1..]);
  }

  /** The subtree cases 3 and 4 build is a correct red-black fragment with
      the parent's colour and the black height the parent's place expects. */
  lemma FarRotationLeftLocal(x: RBTree, f: Frame)
    requires f.LeftOf? && f.right.Node? && !IsRed(f.right) && (IsRed(f.right.left) || IsRed(f.right.right))
    requires !IsRed(x) && NoRedRed(x) && BlackBalanced(x)
    requires NoRedRed(f.right) && BlackBalanced(f.right) && Bh(f.right) == Bh(x) + 1
    ensures FarRotationLeft(x, f).color == f.color
    ensures NoRedRed(FarRotationLeft(x, f)) && BlackBalanced(FarRotationLeft(x, f))
    ensures Bh(FarRotationLeft(x, f)) == Bh(x) + 1 + if f.color == Black then 1 else 0
  {
    var w := f.right;
    if IsRed(w.right) {
      var a := Node(Black, x, f.value, w.left);
      var b := Paint(w.right, Black);
      assert FarRotationLeft(x, f) == Node(f.color, a, w.value, b);
      assert Bh(a) == Bh(x) + 1 && BlackBalanced(a) && NoRedRed(a);
      assert Bh(b) == Bh(x) + 1 && BlackBalanced(b) && NoRedRed(b);
    } else {
      var wl := w.left;
      var a := Node(Black, x, f.value, wl.left);
      var b := Node(Black, wl.right, w.value, w.right);
      assert FarRotationLeft(x, f) == Node(f.color, a, wl.value, b);
      assert Bh(a) == Bh(x) + 1 && BlackBalanced(a) && NoRedRed(a);
      assert Bh(b) == Bh(x) + 1 && BlackBalanced(b) && NoRedRed(b);
    }
  }

  lemma FarRotationRightLocal(x: RBTree, f: Frame)
    requires f.RightOf? && f.left.Node? && !IsRed(f.left) && (IsRed(f.left.left) || IsRed(f.left.right))
    requires !IsRed(x) && NoRedRed(x) && BlackBalanced(x)
    requires NoRedRed(f.left) && BlackBalanced(f.left) && Bh(f.left) == Bh(x) + 1
    ensures FarRotationRight(x, f).color == f.color
    ensures NoRedRed(FarRotationRight(x, f)) && BlackBalanced(FarRotationRight(x, f))
    ensures Bh(FarRotationRight(x, f)) == Bh(x) + 1 + if f.color == Black then 1 else 0
  {
    var w := f.left;
    if IsRed(w.left) {
      var a := Paint(w.left, Black);
      var b := Node(Black, w.right, f.value, x);
      assert FarRotationRight(x, f) == Node(f.color, a, w.value, b);
      assert Bh(a) == Bh(x) + 1 && BlackBalanced(a) && NoRedRed(a);
      assert Bh(b) == Bh(x) + 1 && BlackBalanced(b) && NoRedRed(b);
    } else {
      var wr := w.right;
      var a := Node(Black, w.left, w.value, wr.left);
      var b := Node(Black, wr.right, f.value, x);
      assert FarRotationRight(x, f) == Node(f.color, a, wr.value, b);
      assert Bh(a) == Bh(x) + 1 && BlackBalanced(a) && NoRedRed(a);
      assert Bh(b) == Bh(x) + 1 && BlackBalanced(b) && NoRedRed(b);
    }
  }

  /** Cases 3 and 4 end the loop at the root with the invariant and the
      keys kept. */
  lemma FarRotationLeftKeeps(x: RBTree, p: seq<Frame>)
    requires DeleteFixInv(x, p) && p != [] && !IsRed(x) && p[0].LeftOf? && !IsRed(p[0].right)
    requires p[0].right.Node? && (IsRed(p[0].right.left) || IsRed(p[0].right.right))
    ensures BlackSiblingLeft(x, p).path == []
    ensures DeleteFixInv(BlackSiblingLeft(x, p).node, [])
    ensures InOrder(BlackSiblingLeft(x, p).node) == InOrder(Plug(x, p))
  {
    DeleteFixFacts(x, p);
    var f := p[0];
    var t := FarRotationLeft(x, f);
    FarRotationLeftLocal(x, f);
    NoRedRedInside(Attach(x, f), p[1..]);
    NoRedRedReplace(Attach(x, f), t, p[1..]);
    PaintBlack(Plug(t, p[1..]));
    PlugBalanced(t, p[1..]);
    InOrderReplace(Attach(x, f), t, p[1..]);
  }

  lemma FarRotationRightKeeps(x: RBTree, p: seq<Frame>)
    requires DeleteFixInv(x, p) && p != [] && !IsRed(x) && p[0].RightOf? && !IsRed(p[0].left)
    requires p[0].left.Node? && (IsRed(p[0].left.left) || IsRed(p[0].left.right))
    ensures BlackSiblingRight(x, p).path == []
    ensures DeleteFixInv(BlackSiblingRight(x, p).node, [])
    ensures InOrder(BlackSiblingRight(x, p).node) == InOrder(Plug(x, p))
  {
    DeleteFixFacts(x, p);
    var f := p[0];
    var t := FarRotationRight(x, f);
    FarRotationRightLocal(x, f);
    NoRedRedInside(Attach(x, f), p[1..]);
    NoRedRedReplace(Attach(x, f), t, p[1..]);
    PaintBlack(Plug(t, p[1..]));
    PlugBalanced(t, p[1..]);
    InOrderReplace(Attach(x, f), t, p[1..]);
  }

  /** When the loop stops, painting the focus black leaves a red-black tree
      with the same keys. */
  lemma DeleteFixDone(x: RBTree, p: seq<Frame>)
    requires DeleteFixInv(x, p) && (p == [] || IsRed(x))
    ensures NoRedRed(Plug(Paint(x, Black), p)) && BlackBalanced(Plug(Paint(x, Black), p))
    ensures !IsRed(Plug(Paint(x, Black), p))
    ensures InOrder(Plug(Paint(x, Black), p)) == InOrder(Plug(x, p))
  {
    PaintBlack(x);
    PlugBalanced(Paint(x, Black), p);
    PlugRoot(Paint(x, Black), p);
    InOrderReplace(x, Paint(x, Black), p);
  }

  /** fixAfterDeletion: while the focus is black and not the root, repair
      by cases 1 to 4 on the side the focus hangs; then paint the focus
      black. The result is a red-black tree with the same keys in the same
      order. */
  method FixAfterDeletion(x0: RBTree, p0: seq<Frame>) returns (root: RBTree)
    requires DeleteFixInv(x0, p0)
    ensures NoRedRed(root) && BlackBalanced(root) && !IsRed(root)
    ensures InOrder(root) == InOrder(Plug(x0, p0))
    ensures IsRed(x0) ==> root == Plug(Paint(x0, Black), p0)
  {
    var x, p := x0, p0;
    while p != [] && !IsRed(x)
      invariant DeleteFixInv(x, p)
      invariant InOrder(Plug(x, p)) == InOrder(Plug(x0, p0))
      invariant IsRed(x0) ==> x == x0 && p == p0
      decreases |p|, if IsRed(x) then 0 else 1
    {
      DeleteFixFacts(x, p);
      if p[0].LeftOf? {
        if IsRed(p[0].right) {
          RedSiblingLeftKeeps(x, p);
          p := RedSiblingLeft(p);
          DeleteFixFacts(x, p);
        }
        var w := p[0].right;
        if !IsRed(w.left) && !IsRed(w.right) {
          RecolorSiblingLeftKeeps(x, p);
        } else {
          FarRotationLeftKeeps(x, p);
        }
        var c := BlackSiblingLeft(x, p);
        x, p := c.node, c.path;
      } else {
        if IsRed(p[0].left) {
          RedSiblingRightKeeps(x, p);
          p := RedSiblingRight(p);
          DeleteFixFacts(x, p);
        }
        var w := p[0].left;
        if !IsRed(w.right) && !IsRed(w.left) {
          RecolorSiblingRightKeeps(x, p);
        } else {
          FarRotationRightKeeps(x, p);
        }
        var c := BlackSiblingRight(x, p);
        x, p := c.node, c.path;
      }
    }
    DeleteFixDone(x, p);
    root := Plug(Paint(x, Black), p);
  }

  /** `getMinimum(node)`: follow left children to the node without one. Its
      key comes first in order: nothing of the subtree lies before it. */
  method GetMinimum(t: RBTree) returns (m: RBTree, path: seq<Frame>)
    requires t.Node?
    ensures m.Node? && m.left.Nil? && Plug(m, path) == t && Before(path) == []
    ensures InOrder(t) == [m.value] + InOrder(m.right) + After(path)
    ensures m == Leftmost(t)
  {
    m, path := t, [];
    while m.left.Node?
      invariant m.Node? && Plug(m, path) == t && Before(path) == []
      invariant Leftmost(m) == Leftmost(t)
      decreases m
    {
      assert ([LeftOf(m.color, m.value, m.right)] + path)[1..] == path;
      path := [LeftOf(m.color, m.value, m.right)] + path;
      m := m.left;
    }
    PlugInOrder(m, path);
  }

  /** The position of the successor once its key has been copied into `z`:
      the tree is `z` with the new key, and unlinking the successor leaves
      exactly the keys around `z` without `z`'s own. */
  lemma SuccessorPosition(z: RBTree, zp: seq<Frame>, m: RBTree, mp: seq<Frame>)
    requires z.Node? && m.Node? && m.left.Nil? && Plug(m, mp) == z.right && Before(mp) == []
    ensures Plug(m, mp + [RightOf(z.color, z.left, m.value)] + zp) == Plug(z.(value := m.value), zp)
    ensures InOrder(Plug(m.right, mp + [RightOf(z.color, z.left, m.value)] + zp)) ==
            Before(zp) + InOrder(z.left) + InOrder(z.right) + After(zp)
  {
    var f := RightOf(z.color, z.left, m.value);
    var q := [f] + zp;
    assert mp + [f] + zp == mp + q;
    assert q[0] == f && q[1..] == zp;
    PlugAppend(m, mp, q);
    PlugAppend(m.right, mp, q);
    var r := Plug(m.right, mp);
    assert Plug(r, q) == Plug(Attach(r, f), zp);
    assert Plug(z.right, q) == Plug(Attach(z.right, f), zp);
    PlugInOrder(m, mp);
    PlugInOrder(m.right, mp);
    PlugInOrder(Attach(r, f), zp);
    MinimumRemoved(Before(zp), InOrder(z.left), m.value, InOrder(m.right), After(mp), After(zp),
                   InOrder(z.right), InOrder(r));
  }

  /** Colours and shape decide the red-black conditions; changing a key
      does not affect them. */
  lemma ShapeIgnoresKeys(z: RBTree, zp: seq<Frame>, v: string)
    requires z.Node? && NoRedRed(Plug(z, zp)) && BlackBalanced(Plug(z, zp)) && !IsRed(Plug(z, zp))
    ensures NoRedRed(Plug(z.(value := v), zp)) && BlackBalanced(Plug(z.(value := v), zp))
    ensures !IsRed(Plug(z.(value := v), zp))
  {
    NoRedRedInside(z, zp);
    NoRedRedReplace(z, z.(value := v), zp);
    PlugBalanced(z, zp);
    PlugBalanced(z.(value := v), zp);
    PlugRoot(z, zp);
    PlugRoot(z.(value := v), zp);
  }

  /** Unlinking a node with at most one child puts that child (or the
      absent node) in its place. */
  lemma SpliceKeys(y: RBTree, yp: seq<Frame>)
    requires y.Node? && (y.left.Nil? || y.right.Nil?)
    ensures InOrder(Plug(if y.left.Node? then y.left else y.right, yp)) ==
            Before(yp) + InOrder(y.left) + InOrder(y.right) + After(yp)
  {
    PlugInOrder(if y.left.Node? then y.left else y.right, yp);
  }

  /** Unlinking a black node: its child, or the absent node, starts
      fixAfterDeletion one black node short. */
  lemma SpliceStartsFix(y: RBTree, yp: seq<Frame>)
    requires y.Node? && (y.left.Nil? || y.right.Nil?) && y.color == Black
    requires NoRedRed(Plug(y, yp)) && BlackBalanced(Plug(y, yp)) && !IsRed(Plug(y, yp))
    ensures DeleteFixInv(if y.left.Node? then y.left else y.right, yp)
  {
    var child := if y.left.Node? then y.left else y.right;
    NoRedRedInside(y, yp);
    PlugBalanced(y, yp);
    PlugRoot(y, yp);
    assert Bh(y) == Bh(child) + 1;
    PaintBlack(child);
    NoRedRedReplace(y, Paint(child, Black), yp);
  }

  /** Unlinking a red node: it has no child at all, and nothing needs
      repair. */
  lemma RedSplice(y: RBTree, yp: seq<Frame>)
    requires y.Node? && (y.left.Nil? || y.right.Nil?) && y.color == Red
    requires NoRedRed(Plug(y, yp)) && BlackBalanced(Plug(y, yp)) && !IsRed(Plug(y, yp))
    ensures y.left.Nil? && y.right.Nil?
    ensures NoRedRed(Plug(Nil, yp)) && BlackBalanced(Plug(Nil, yp)) && !IsRed(Plug(Nil, yp))
  {
    NoRedRedInside(y, yp);
    PlugBalanced(y, yp);
    PlugRoot(y, yp);
    PlugRoot(Nil, yp);
    NoRedRedReplace(y, Nil, yp);
    PlugBalanced(Nil, yp);
  }

  /** The keys after deleteNode: the old ones in order with `z`'s removed. */
  lemma DeleteKeys(z: RBTree, zp: seq<Frame>)
    requires z.Node? && Sorted(InOrder(Plug(z, zp)))
    ensures Sorted(Before(zp) + InOrder(z.left) + InOrder(z.right) + After(zp))
    ensures multiset(Before(zp) + InOrder(z.left) + InOrder(z.right) + After(zp)) ==
            multiset(InOrder(Plug(z, zp))) - multiset{z.value}
  {
    PlugInOrder(z, zp);
    Regroup(Before(zp), InOrder(z.left), z.value, InOrder(z.right), After(zp));
    RemoveBetween(Before(zp) + InOrder(z.left), z.value, InOrder(z.right) + After(zp));
  }

  /** deleteNode: a node with two children takes its successor's key and
      the successor is unlinked instead; the unlinked node's child (or the
      absent node) takes its place, and fixAfterDeletion runs when the
      unlinked node was black. The result is a red-black tree holding the
      old keys in order without `z`'s. */
  method DeleteNode(z: RBTree, zp: seq<Frame>) returns (root: RBTree)
    requires z.Node? && IsRB(Plug(z, zp))
    ensures IsRB(root)
    ensures InOrder(root) == Before(zp) + InOrder(z.left) + InOrder(z.right) + After(zp)
  {
    var y, yp := z, zp;
    if z.left.Node? && z.right.Node? {
      var m, mp := GetMinimum(z.right);
      y, yp := m, mp + [RightOf(z.color, z.left, m.value)] + zp;
      SuccessorPosition(z, zp, m, mp);
      ShapeIgnoresKeys(z, zp, m.value);
    } else {
      SpliceKeys(z, zp);
    }
    var child := if y.left.Node? then y.left else y.right;
    if y.color == Black {
      SpliceStartsFix(y, yp);
      root := FixAfterDeletion(child, yp);
    } else {
      RedSplice(y, yp);
      root := Plug(child, yp);
    }
    DeleteKeys(z, zp);
  }

  /** The node `getMinimum` stops at: the leftmost node of a subtree. */
  function Leftmost(t: RBTree): (m: RBTree)
    requires t.Node?
    ensures m.Node? && m.left.Nil?
    ensures BlackBalanced(t) ==> BlackBalanced(m)
    decreases t
  {
    if t.left.Nil? then t else Leftmost(t.left)
  }

  /** The node deleteNode unlinks: `z` itself, or its successor when `z`
      has two children. Either way it has at most one child. */
  function Unlinked(z: RBTree): (y: RBTree)
    requires z.Node?
    ensures y.Node? && (y.left.Nil? || y.right.Nil?)
    ensures BlackBalanced(z) ==> BlackBalanced(y)
  {
    if z.left.Node? && z.right.Node? then Leftmost(z.right) else z
  }

  /** deleteNode as written passes the unlinked node's child to
      fixAfterDeletion whenever the unlinked node is black, and that child
      is a null reference when the node had none. fixAfterDeletion then
      reads the colour of the null node (or, once the tree has become
      empty, assigns it), which throws. This holds exactly when that
      happens. */
  predicate FaultsAsWritten(z: RBTree)
    requires z.Node?
  {
    var y := Unlinked(z);
    y.color == Black && y.left.Nil? && y.right.Nil?
  }

  /** Otherwise, in a red-black tree the child handed over in place of a
      black node is red: the loop of fixAfterDeletion is not entered and
      the code as written only paints that child black, which is what
      FixAfterDeletion does for a red focus. So deletion as written differs
      from the model only where it faults. */
  lemma OnlyNullChildFaults(z: RBTree, zp: seq<Frame>)
    requires z.Node? && IsRB(Plug(z, zp))
    requires Unlinked(z).color == Black && !FaultsAsWritten(z)
    ensures var y := Unlinked(z); IsRed(if y.left.Node? then y.left else y.right)
  {
    PlugBalanced(z, zp);
    var y := Unlinked(z);
    var child := if y.left.Node? then y.left else y.right;
    assert Bh(child) == 0;
  }

  /** The counterexample: the tree that inserting one key into an empty
      tree leaves faults when that key is deleted. */
  lemma SingleKeyFaults(v: string)
    ensures FaultsAsWritten(Node(Black, Nil, v, Nil))
  {
  }

  /** The tree of the mixed insert/delete test just before it deletes "K":
      inserting M, N, O, L, K, Q, P, H, I, A and then deleting H leaves L
      black at the root, I and N red below it, and K a black leaf. */
  const MixedBeforeDeletingK: RBTree :=
    Node(Black,
      Node(Red, Node(Black, Nil, "A", Nil), "I", Node(Black, Nil, "K", Nil)),
      "L",
      Node(Red, Node(Black, Nil, "M", Nil), "N",
        Node(Black, Node(Red, Nil, "O", Nil), "P", Node(Red, Nil, "Q", Nil))))

  /** The second counterexample: that tree is a red-black tree, searchNode
      finds "K" in it, and deleting "K" faults as written. */
  lemma MixedSequenceFaults()
    ensures IsRB(MixedBeforeDeletingK)
    ensures var c := SearchNode(MixedBeforeDeletingK, "K", []);
      c.node == Node(Black, Nil, "K", Nil) && FaultsAsWritten(c.node)
  {
    var s := InOrder(MixedBeforeDeletingK);
    assert s == ["A", "I", "K", "L", "M", "N", "O", "P", "Q"];
    forall i, j | 0 <= i < j < |s|
      ensures Less(s[i], s[j])
    {
      assert s[i][0] < s[j][0];
    }
  }
}
