/**
 * Insertion into RedBlackTree.java: the descent that finds where the new
 * red node goes, and fixViolation, which repairs a red node with a red
 * parent by recolouring or by one or two rotations.
 */
module RedBlackInsert {
  import opened Keys
  import opened RedBlack

  /** The colour exchange after the final rotation of fixViolation: the new
      top takes the colour of its right (resp. left) child and the child
      takes the top's. */
  function SwapColorsRight(t: RBTree): (r: RBTree)
    requires t.Node? && t.right.Node?
    ensures r.Node? && r.right.Node? && InOrder(r) == InOrder(t)
    ensures r.color == t.right.color && r.right.color == t.color
  {
    Node(t.right.color, t.left, t.value, t.right.(color := t.color))
  }

  function SwapColorsLeft(t: RBTree): (r: RBTree)
    requires t.Node? && t.left.Node?
    ensures r.Node? && r.left.Node? && InOrder(r) == InOrder(t)
    ensures r.color == t.left.color && r.left.color == t.color
  {
    Node(t.left.color, t.left.(color := t.color), t.value, t.right)
  }

  /** One pass of fixViolation's loop. The red node `x` hangs below its red
      parent (frame `parent`), which hangs below the grandparent (frame
      `grand`). The result is the subtree that takes the grandparent's
      place; its root is the node the loop continues from. */
  function InsertStep(x: RBTree, parent: Frame, grand: Frame): (r: RBTree)
    requires x.Node?
    ensures r.Node? && InOrder(r) == InOrder(Attach(Attach(x, parent), grand))
  {
    var p := Attach(x, parent);
    match grand
    case LeftOf(gc, gv, uncle) =>
      if IsRed(uncle) then Node(Red, Paint(p, Black), gv, Paint(uncle, Black))
      else
        var p' := if parent.RightOf? then RotateLeft(p) else p;
        SwapColorsRight(RotateRight(Node(gc, p', gv, uncle)))
    case RightOf(gc, uncle, gv) =>
      if IsRed(uncle) then Node(Red, Paint(uncle, Black), gv, Paint(p, Black))
      else
        var p' := if parent.LeftOf? then RotateRight(p) else p;
        SwapColorsLeft(RotateLeft(Node(gc, uncle, gv, p')))
  }

  /** The loop invariant of fixViolation: the focus is a node whose subtree
      has no red-red pair; the only pair the whole tree may have is the focus
      and its parent (painting the focus black removes it); black heights
      agree everywhere; and the root, if it is not the focus, is black. */
  ghost predicate FixInv(x: RBTree, p: seq<Frame>) {
    x.Node? && NoRedRed(x) && NoRedRed(Plug(Paint(x, Black), p)) &&
    BlackBalanced(x) && BalancedAt(p, Bh(x)) &&
    (p != [] ==> p[|p| - 1].color == Black)
  }

  /** The subtree InsertStep builds is a correct red-black fragment of the
      grandparent's black height. */
  lemma InsertStepLocal(x: RBTree, f0: Frame, f1: Frame)
    requires IsRed(x) && NoRedRed(x) && BlackBalanced(x)
    requires f0.color == Red && f1.color == Black
    requires NoRedRed(Sibling(f0)) && !IsRed(Sibling(f0)) && NoRedRed(Sibling(f1))
    requires BlackBalanced(Sibling(f0)) && Bh(Sibling(f0)) == Bh(x)
    requires BlackBalanced(Sibling(f1)) && Bh(Sibling(f1)) == Bh(x)
    ensures NoRedRed(InsertStep(x, f0, f1)) && BlackBalanced(InsertStep(x, f0, f1))
    ensures Bh(InsertStep(x, f0, f1)) == Bh(x) + 1
  {
    if f1.LeftOf? {
      if IsRed(f1.right) {
        RecolorUnderLeft(x, f0, f1);
      } else if f0.RightOf? {
        RotateInnerUnderLeft(x, f0, f1);
      } else {
        RotateOuterUnderLeft(x, f0, f1);
      }
    } else {
      if IsRed(f1.left) {
        RecolorUnderRight(x, f0, f1);
      } else if f0.LeftOf? {
        RotateInnerUnderRight(x, f0, f1);
      } else {
        RotateOuterUnderRight(x, f0, f1);
      }
    }
  }

  /** Red uncle, parent on the left: recolouring. */
  lemma RecolorUnderLeft(x: RBTree, f0: Frame, f1: Frame)
    requires IsRed(x) && NoRedRed(x) && BlackBalanced(x)
    requires f0.color == Red && f1.color == Black
    requires NoRedRed(Sibling(f0)) && !IsRed(Sibling(f0)) && NoRedRed(Sibling(f1))
    requires BlackBalanced(Sibling(f0)) && Bh(Sibling(f0)) == Bh(x)
    requires BlackBalanced(Sibling(f1)) && Bh(Sibling(f1)) == Bh(x)
    requires f1.LeftOf? && IsRed(f1.right)
    ensures NoRedRed(InsertStep(x, f0, f1)) && BlackBalanced(InsertStep(x, f0, f1))
    ensures Bh(InsertStep(x, f0, f1)) == Bh(x) + 1
  {
    var p := Attach(x, f0);
    var u := f1.right;
    var pb := Attach(x, f0.(color := Black));
    assert Paint(p, Black) == pb;
    assert Bh(pb) == Bh(x) + 1 && NoRedRed(pb) && BlackBalanced(pb);
    PaintBlack(u);
    assert Bh(u) == Bh(u.left);
    assert InsertStep(x, f0, f1) == Node(Red, Paint(p, Black), f1.value, Paint(u, Black));
  }

  /** Red uncle, parent on the right: recolouring. */
  lemma RecolorUnderRight(x: RBTree, f0: Frame, f1: Frame)
    requires IsRed(x) && NoRedRed(x) && BlackBalanced(x)
    requires f0.color == Red && f1.color == Black
    requires NoRedRed(Sibling(f0)) && !IsRed(Sibling(f0)) && NoRedRed(Sibling(f1))
    requires BlackBalanced(Sibling(f0)) && Bh(Sibling(f0)) == Bh(x)
    requires BlackBalanced(Sibling(f1)) && Bh(Sibling(f1)) == Bh(x)
    requires f1.RightOf? && IsRed(f1.left)
    ensures NoRedRed(InsertStep(x, f0, f1)) && BlackBalanced(InsertStep(x, f0, f1))
    ensures Bh(InsertStep(x, f0, f1)) == Bh(x) + 1
  {
    var p := Attach(x, f0);
    var u := f1.left;
    var pb := Attach(x, f0.(color := Black));
    assert Paint(p, Black) == pb;
    assert Bh(pb) == Bh(x) + 1 && NoRedRed(pb) && BlackBalanced(pb);
    PaintBlack(u);
    assert Bh(u) == Bh(u.left);
    assert InsertStep(x, f0, f1) == Node(Red, Paint(u, Black), f1.value, Paint(p, Black));
  }

  /** Black uncle, node inside a left parent: two rotations. */
  lemma RotateInnerUnderLeft(x: RBTree, f0: Frame, f1: Frame)
    requires IsRed(x) && NoRedRed(x) && BlackBalanced(x)
    requires f0.color == Red && f1.color == Black
    requires NoRedRed(Sibling(f0)) && !IsRed(Sibling(f0)) && NoRedRed(Sibling(f1))
    requires BlackBalanced(Sibling(f0)) && Bh(Sibling(f0)) == Bh(x)
    requires BlackBalanced(Sibling(f1)) && Bh(Sibling(f1)) == Bh(x)
    requires f1.LeftOf? && !IsRed(f1.right) && f0.RightOf?
    ensures NoRedRed(InsertStep(x, f0, f1)) && BlackBalanced(InsertStep(x, f0, f1))
    ensures Bh(InsertStep(x, f0, f1)) == Bh(x) + 1
  {
    var a := Node(Red, f0.left, f0.value, x.left);
    var b := Node(Red, x.right, f1.value, f1.right);
    assert InsertStep(x, f0, f1) == Node(Black, a, x.value, b);
    assert Bh(a) == Bh(f0.left) && BlackBalanced(a) && NoRedRed(a);
    assert Bh(b) == Bh(x.right) && BlackBalanced(b) && NoRedRed(b);
  }

  /** Black uncle, node inside a right parent: two rotations. */
  lemma RotateInnerUnderRight(x: RBTree, f0: Frame, f1: Frame)
    requires IsRed(x) && NoRedRed(x) && BlackBalanced(x)
    requires f0.color == Red && f1.color == Black
    requires NoRedRed(Sibling(f0)) && !IsRed(Sibling(f0)) && NoRedRed(Sibling(f1))
    requires BlackBalanced(Sibling(f0)) && Bh(Sibling(f0)) == Bh(x)
    requires BlackBalanced(Sibling(f1)) && Bh(Sibling(f1)) == Bh(x)
    requires f1.RightOf? && !IsRed(f1.left) && f0.LeftOf?
    ensures NoRedRed(InsertStep(x, f0, f1)) && BlackBalanced(InsertStep(x, f0, f1))
    ensures Bh(InsertStep(x, f0, f1)) == Bh(x) + 1
  {
    var a := Node(Red, f1.left, f1.value, x.left);
    var b := Node(Red, x.right, f0.value, f0.right);
    assert InsertStep(x, f0, f1) == Node(Black, a, x.value, b);
    assert Bh(a) == Bh(f1.left) && BlackBalanced(a) && NoRedRed(a);
    assert Bh(b) == Bh(x.right) && BlackBalanced(b) && NoRedRed(b);
  }

  /** Black uncle, node outside a left parent: one rotation. */
  lemma RotateOuterUnderLeft(x: RBTree, f0: Frame, f1: Frame)
    requires IsRed(x) && NoRedRed(x) && BlackBalanced(x)
    requires f0.color == Red && f1.color == Black
    requires NoRedRed(Sibling(f0)) && !IsRed(Sibling(f0)) && NoRedRed(Sibling(f1))
    requires BlackBalanced(Sibling(f0)) && Bh(Sibling(f0)) == Bh(x)
    requires BlackBalanced(Sibling(f1)) && Bh(Sibling(f1)) == Bh(x)
    requires f1.LeftOf? && !IsRed(f1.right) && f0.LeftOf?
    ensures NoRedRed(InsertStep(x, f0, f1)) && BlackBalanced(InsertStep(x, f0, f1))
    ensures Bh(InsertStep(x, f0, f1)) == Bh(x) + 1
  {
    var b := Node(Red, f0.right, f1.value, f1.right);
    assert InsertStep(x, f0, f1) == Node(Black, x, f0.value, b);
    assert Bh(b) == Bh(f0.right) && BlackBalanced(b) && NoRedRed(b);
  }

  /** Black uncle, node outside a right parent: one rotation. */
  lemma RotateOuterUnderRight(x: RBTree, f0: Frame, f1: Frame)
    requires IsRed(x) && NoRedRed(x) && BlackBalanced(x)
    requires f0.color == Red && f1.color == Black
    requires NoRedRed(Sibling(f0)) && !IsRed(Sibling(f0)) && NoRedRed(Sibling(f1))
    requires BlackBalanced(Sibling(f0)) && Bh(Sibling(f0)) == Bh(x)
    requires BlackBalanced(Sibling(f1)) && Bh(Sibling(f1)) == Bh(x)
    requires f1.RightOf? && !IsRed(f1.left) && f0.RightOf?
    ensures NoRedRed(InsertStep(x, f0, f1)) && BlackBalanced(InsertStep(x, f0, f1))
    ensures Bh(InsertStep(x, f0, f1)) == Bh(x) + 1
  {
    var a := Node(Red, f1.left, f1.value, f0.left);
    assert InsertStep(x, f0, f1) == Node(Black, a, f0.value, x);
    assert Bh(a) == Bh(f1.left) && BlackBalanced(a) && NoRedRed(a);
  }

  /** One pass of the loop keeps the invariant and the keys, and shortens
      the path by two frames. */
  lemma InsertStepKeeps(x: RBTree, p: seq<Frame>)
    requires FixInv(x, p) && p != [] && IsRed(x) && p[0].color == Red
    ensures |p| >= 2
    ensures FixInv(InsertStep(x, p[0], p[1]), p[2..])
    ensures InOrder(Plug(InsertStep(x, p[0], p[1]), p[2..])) == InOrder(Plug(x, p))
  {
    assert |p| >= 2;
    var g := Attach(Attach(x, p[0]), p[1]);
    var gb := Attach(Attach(Paint(x, Black), p[0]), p[1]);
    var t := InsertStep(x, p[0], p[1]);
    assert Plug(x, p) == Plug(g, p[2..]) by {
      assert p[1..][1..] == p[2..];
    }
    assert Plug(Paint(x, Black), p) == Plug(gb, p[2..]) by {
      assert p[1..][1..] == p[2..];
    }
    NoRedRedInside(Paint(x, Black), p);
    NoRedRedInside(Attach(Paint(x, Black), p[0]), p[1..]);
    BalancedAtHead(p, Bh(x));
    BalancedAtHead(p[1..], Bh(x));
    assert p[1..][0] == p[1] && p[1..][1..] == p[2..];
    InsertStepLocal(x, p[0], p[1]);
    PaintBlack(t);
    NoRedRedReplace(gb, Paint(t, Black), p[2..]);
    InOrderReplace(g, t, p[2..]);
  }

  /** When the loop stops, painting the root black leaves a red-black tree
      with the same keys. */
  lemma InsertFixDone(x: RBTree, p: seq<Frame>)
    requires FixInv(x, p) && (p == [] || !IsRed(x) || p[0].color == Black)
    ensures NoRedRed(Paint(Plug(x, p), Black)) && BlackBalanced(Paint(Plug(x, p), Black))
    ensures !IsRed(Paint(Plug(x, p), Black))
    ensures InOrder(Paint(Plug(x, p), Black)) == InOrder(Plug(x, p))
    ensures p == [] ==> Paint(Plug(x, p), Black) == Paint(x, Black)
  {
    PlugRoot(x, p);
    if p == [] {
      PaintBlack(x);
    } else {
      NoRedRedReplace(Paint(x, Black), x, p);
      PlugBalanced(x, p);
      assert Paint(Plug(x, p), Black) == Plug(x, p);
    }
  }

  /** The descent loop of `insert`: left below a larger key, right below a
      smaller one, until the place is empty or the key is met. When the key
      is absent, the path leads to the empty place where it belongs: every
      key left of that place is smaller and every key right of it larger. */
  method FindInsertionPoint(t: RBTree, v: string) returns (found: bool, path: seq<Frame>)
    requires Sorted(InOrder(t))
    ensures found <==> v in InOrder(t)
    ensures !found ==> Plug(Nil, path) == t && AllLess(Before(path), v) && AllGreater(After(path), v)
  {
    var cur := t;
    path := [];
    while cur.Node?
      invariant Plug(cur, path) == t
      invariant Sorted(InOrder(cur))
      invariant AllLess(Before(path), v) && AllGreater(After(path), v)
      invariant v in InOrder(t) <==> v in InOrder(cur)
      decreases cur
    {
      SortedConcat(InOrder(cur.left), cur.value, InOrder(cur.right));
      CompareToAntisymmetric(v, cur.value);
      if CompareTo(v, cur.value) < 0 {
        DescendLeft(cur, path, v);
        path := [LeftOf(cur.color, cur.value, cur.right)] + path;
        cur := cur.left;
      } else if CompareTo(v, cur.value) > 0 {
        DescendRight(cur, path, v);
        path := [RightOf(cur.color, cur.left, cur.value)] + path;
        cur := cur.right;
      } else {
        return true, path;
      }
    }
    return false, path;
  }

  /** Going left below a larger key keeps the bounds of the descent. */
  lemma DescendLeft(cur: RBTree, path: seq<Frame>, v: string)
    requires cur.Node? && Sorted(InOrder(cur)) && Less(v, cur.value)
    requires AllLess(Before(path), v) && AllGreater(After(path), v)
    ensures AllLess(Before([LeftOf(cur.color, cur.value, cur.right)] + path), v)
    ensures AllGreater(After([LeftOf(cur.color, cur.value, cur.right)] + path), v)
    ensures v in InOrder(cur) <==> v in InOrder(cur.left)
  {
    var p' := [LeftOf(cur.color, cur.value, cur.right)] + path;
    assert p'[1..] == path;
    SortedConcat(InOrder(cur.left), cur.value, InOrder(cur.right));
    forall y | y in InOrder(cur.right) ensures Less(v, y) {
      LessTransitive(v, cur.value, y);
    }
    LessTrichotomy(v, cur.value);
  }

  /** Going right below a smaller key keeps the bounds of the descent. */
  lemma DescendRight(cur: RBTree, path: seq<Frame>, v: string)
    requires cur.Node? && Sorted(InOrder(cur)) && Less(cur.value, v)
    requires AllLess(Before(path), v) && AllGreater(After(path), v)
    ensures AllLess(Before([RightOf(cur.color, cur.left, cur.value)] + path), v)
    ensures AllGreater(After([RightOf(cur.color, cur.left, cur.value)] + path), v)
    ensures v in InOrder(cur) <==> v in InOrder(cur.right)
  {
    var p' := [RightOf(cur.color, cur.left, cur.value)] + path;
    assert p'[1..] == path;
    SortedConcat(InOrder(cur.left), cur.value, InOrder(cur.right));
    forall y | y in InOrder(cur.left) ensures Less(y, v) {
      LessTransitive(y, cur.value, v);
    }
    LessTrichotomy(v, cur.value);
  }

  /** fixViolation: while the focus is red under a red parent, apply one
      pass of the repair; then paint the root black. The result is a
      red-black tree with the same keys in the same order. */
  method FixViolation(x0: RBTree, p0: seq<Frame>) returns (root: RBTree)
    requires FixInv(x0, p0)
    ensures NoRedRed(root) && BlackBalanced(root) && !IsRed(root)
    ensures InOrder(root) == InOrder(Plug(x0, p0))
    ensures p0 == [] ==> root == Paint(x0, Black)
  {
    var x, p := x0, p0;
    while p != [] && IsRed(x) && p[0].color == Red
      invariant FixInv(x, p)
      invariant InOrder(Plug(x, p)) == InOrder(Plug(x0, p0))
      invariant p0 == [] ==> p == [] && x == x0
      decreases |p|
    {
      InsertStepKeeps(x, p);
      x, p := InsertStep(x, p[0], p[1]), p[2..];
    }
    InsertFixDone(x, p);
    root := Paint(Plug(x, p), Black);
  }

  /** A new red leaf at the empty place the descent found meets
      fixViolation's precondition. */
  lemma NewLeafStartsFix(path: seq<Frame>, v: string)
    requires IsRB(Plug(Nil, path))
    ensures FixInv(Node(Red, Nil, v, Nil), path)
  {
    var leaf := Node(Red, Nil, v, Nil);
    PlugRoot(Nil, path);
    NoRedRedReplace(Nil, Paint(leaf, Black), path);
    PlugBalanced(Nil, path);
  }

  /** ... and the keys become the old ones with the new key added in order. */
  lemma NewLeafKeys(path: seq<Frame>, v: string)
    requires Sorted(InOrder(Plug(Nil, path)))
    requires AllLess(Before(path), v) && AllGreater(After(path), v)
    ensures Sorted(InOrder(Plug(Node(Red, Nil, v, Nil), path)))
    ensures multiset(InOrder(Plug(Node(Red, Nil, v, Nil), path))) == multiset(InOrder(Plug(Nil, path))) + multiset{v}
  {
    var leaf := Node(Red, Nil, v, Nil);
    var a, b := Before(path), After(path);
    PlugInOrder(Nil, path);
    PlugInOrder(leaf, path);
    assert InOrder(leaf) == [v];
    assert InOrder(Plug(Nil, path)) == a + b;
    InsertBetween(a, v, b);
  }
}
