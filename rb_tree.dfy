/**
 * The public face of RedBlackTree.java: the root, the key count, and the
 * operations of the shared tree interface.
 *
 * The Java object updates `root` and `size` in place, so it is a class
 * here; the node structure below the root is a value (see module
 * RedBlack), rebuilt by the insertion and deletion engines.
 */
module RedBlackTrees {
  import opened Keys
  import opened RedBlack
  import opened RedBlackInsert
  import opened RedBlackDelete

  /** RedBlackTree: the root of the node structure and the number of keys
      held. */
  class RedBlackTree {
    var root: RBTree
    var size: int

    /** The class invariant: a red-black tree, and `size` counts its keys. */
    ghost predicate Valid()
      reads this
    {
      IsRB(root) && size == |InOrder(root)|
    }

    constructor()
      ensures Valid() && root == Nil && size == 0
    {
      root := Nil;
      size := 0;
    }

    /** The keys held. */
    ghost function Contents(): set<string>
      reads this
    {
      Elements(InOrder(root))
    }

    /** `search(value)`: whether searchNode from the root finds a node. */
    function Search(v: string): (found: bool)
      reads this
      requires Valid()
      ensures found <==> v in InOrder(root)
    {
      SearchNodeFinds(root, v, []);
      SearchNode(root, v, []).node.Node?
    }

    /** `insert(value)`: a duplicate is refused and nothing changes;
        otherwise a red leaf is linked where the descent ended, the
        red-black properties are restored, and the size grows by one. The
        first key becomes a black root. */
    method Insert(v: string) returns (inserted: bool)
      requires Valid()
      modifies this
      ensures Valid()
      ensures inserted <==> v !in old(Contents())
      ensures Contents() == old(Contents()) + {v}
      ensures size == old(size) + if inserted then 1 else 0
      ensures !inserted ==> root == old(root)
      ensures old(root).Nil? ==> root == Node(Black, Nil, v, Nil)
    {
      var found, path := FindInsertionPoint(root, v);
      if found {
        return false;
      }
      var leaf := Node(Red, Nil, v, Nil);
      NewLeafStartsFix(path, v);
      NewLeafKeys(path, v);
      PlugRoot(Nil, path);
      var r := FixViolation(leaf, path);
      MultisetAddCount(InOrder(root), InOrder(r), v);
      ElementsAdd(InOrder(root), InOrder(r), v);
      root := r;
      size := size + 1;
      inserted := true;
    }

    /** `delete(value)`: an absent key is refused and nothing changes;
        otherwise deleteNode unlinks the key's node (or its successor's,
        after copying the successor's key up), the red-black properties are
        restored, and the size shrinks by one. */
    method Delete(v: string) returns (deleted: bool)
      requires Valid()
      modifies this
      ensures Valid()
      ensures deleted <==> v in old(Contents())
      ensures Contents() == old(Contents()) - {v}
      ensures size == old(size) - if deleted then 1 else 0
      ensures !deleted ==> root == old(root)
    {
      var c := SearchNode(root, v, []);
      SearchNodeFinds(root, v, []);
      if c.node.Nil? {
        return false;
      }
      var r := DeleteNode(c.node, c.path);
      DeletedKeys(c.node, c.path, r);
      root := r;
      size := size - 1;
      deleted := true;
    }

    /** `getHeight()`: the number of nodes on the longest path from the
        root; in a red-black tree it is at most twice the height of a
        perfectly balanced tree with the same keys. */
    function GetHeight(): (h: int)
      reads this
      requires Valid()
      ensures h == Height(root)
      ensures Pow2((h + 1) / 2) <= size + 1 && size < Pow2(h)
    {
      HeightBounds(root);
      Height(root)
    }

    /** `getSize()`: the number of keys held. */
    function GetSize(): (n: int)
      reads this
      requires Valid()
      ensures n == |InOrder(root)| == |multiset(InOrder(root))|
    {
      size
    }

    /** `traverseInOrder()`, as the sequence of keys it prints: strictly
        increasing. */
    function TraverseInOrder(): (keys: seq<string>)
      reads this
      requires Valid()
      ensures Sorted(keys) && |keys| == size
      ensures forall v :: v in keys <==> Search(v)
    {
      InOrder(root)
    }

    /** `traversePreOrder()`: every key once, the root first. */
    function TraversePreOrder(): (keys: seq<string>)
      reads this
      requires Valid()
      ensures multiset(keys) == multiset(InOrder(root))
      ensures root.Node? ==> keys[0] == root.value
    {
      TraversalsArePermutations(root);
      PreOrder(root)
    }

    /** `traversePostOrder()`: every key once, the root last. */
    function TraversePostOrder(): (keys: seq<string>)
      reads this
      requires Valid()
      ensures multiset(keys) == multiset(InOrder(root))
      ensures root.Node? ==> keys[|keys| - 1] == root.value
    {
      TraversalsArePermutations(root);
      PostOrder(root)
    }
  }

  /** The keys left by deleteNode, counted and as a set. */
  lemma DeletedKeys(z: RBTree, zp: seq<Frame>, r: RBTree)
    requires z.Node? && Sorted(InOrder(Plug(z, zp)))
    requires InOrder(r) == Before(zp) + InOrder(z.left) + InOrder(z.right) + After(zp)
    ensures |InOrder(r)| == |InOrder(Plug(z, zp))| - 1
    ensures Elements(InOrder(r)) == Elements(InOrder(Plug(z, zp))) - {z.value}
  {
    var s, s' := InOrder(Plug(z, zp)), InOrder(r);
    DeleteKeys(z, zp);
    PlugInOrder(z, zp);
    assert z.value in s;
    MultisetRemoveCount(s, s', z.value);
    SortedNoDuplicates(s, z.value);
    ElementsRemove(s, s', z.value);
  }

  /** The four rotation tests: three distinct keys inserted in any order
      give size 3 and height 2. */
  method ThreeInsertions(a: string, b: string, c: string) returns (size: int, height: int)
    requires a != b && b != c && a != c
    ensures size == 3 && height == 2
  {
    var tree := new RedBlackTree();
    var _ := tree.Insert(a);
    assert tree.Contents() == {a};
    var _ := tree.Insert(b);
    assert tree.Contents() == {a, b};
    var _ := tree.Insert(c);
    assert tree.Contents() == {a, b, c};
    ThreeKeysHeightTwo(tree.root);
    size := tree.GetSize();
    height := tree.GetHeight();
  }

  /** The empty-tree test: size 0, height 0, and deletion refused. */
  method EmptyTree() returns (size: int, height: int, deleted: bool)
    ensures size == 0 && height == 0 && !deleted
  {
    var tree := new RedBlackTree();
    size := tree.GetSize();
    height := tree.GetHeight();
    deleted := tree.Delete("Any");
  }

  /** The single-key deletion test: after one insertion, deleting that key
      succeeds and leaves an empty tree without it. The same tree is one on
      which deleteNode as written faults. */
  method SingleKeyDeletion(v: string) returns (faultsAsWritten: bool, deleted: bool, size: int, found: bool)
    ensures faultsAsWritten
    ensures deleted && size == 0 && !found
  {
    var tree := new RedBlackTree();
    var _ := tree.Insert(v);
    faultsAsWritten := FaultsAsWritten(tree.root);
    deleted := tree.Delete(v);
    size := tree.GetSize();
    found := tree.Search(v);
  }
}
