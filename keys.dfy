/**
 * Keys of both trees are Java strings compared with String.compareTo.
 * This module models that comparison and proves it is a strict total order,
 * then states the binary-search-tree order on an in-order key sequence.
 */
module Keys {

  /** String.compareTo: the difference of the first pair of differing
      characters, or the difference of the lengths when one string is a
      prefix of the other. */
  function CompareTo(a: string, b: string): (r: int)
    ensures r == 0 <==> a == b
  {
    if |a| == 0 || |b| == 0 then |a| - |b|
    else if a[0] != b[0] then a[0] as int - b[0] as int
    else
      assert a == [a[0]] + a[1..] && b == [b[0]] + b[1..];
      CompareTo(a[1..], b[1..])
  }

  /** Swapping the operands negates the result. */
  lemma {:induction false} CompareToAntisymmetric(a: string, b: string)
    ensures CompareTo(b, a) == -CompareTo(a, b)
  {
    if |a| != 0 && |b| != 0 && a[0] == b[0] {
      CompareToAntisymmetric(a[1..], b[1..]);
    }
  }

  /** The order the trees are sorted by: `a.compareTo(b) < 0`. */
  predicate Less(a: string, b: string) {
    CompareTo(a, b) < 0
  }

  lemma {:induction false} LessTransitive(a: string, b: string, c: string)
    requires Less(a, b) && Less(b, c)
    ensures Less(a, c)
  {
    if |a| != 0 && |b| != 0 && |c| != 0 && a[0] == b[0] && b[0] == c[0] {
      LessTransitive(a[1..], b[1..], c[1..]);
    }
  }

  lemma LessTrichotomy(a: string, b: string)
    ensures Less(a, b) || a == b || Less(b, a)
    ensures !(Less(a, b) && Less(b, a))
  {
    CompareToAntisymmetric(a, b);
  }

  /** Strictly increasing: the in-order sequence of a binary search tree
      without duplicates. */
  ghost predicate Sorted(s: seq<string>) {
    forall i, j :: 0 <= i < j < |s| ==> Less(s[i], s[j])
  }

  ghost predicate AllLess(s: seq<string>, v: string) {
    forall x :: x in s ==> Less(x, v)
  }

  ghost predicate AllGreater(s: seq<string>, v: string) {
    forall x :: x in s ==> Less(v, x)
  }

  /** A node's in-order sequence is sorted exactly when both subtrees are
      and the node's key separates them. */
  lemma SortedConcat(a: seq<string>, v: string, b: seq<string>)
    ensures Sorted(a + [v] + b) <==> Sorted(a) && Sorted(b) && AllLess(a, v) && AllGreater(b, v)
  {
    var s := a + [v] + b;
    if Sorted(s) {
      assert Sorted(a) by {
        forall i, j | 0 <= i < j < |a| ensures Less(a[i], a[j]) {
          assert a[i] == s[i] && a[j] == s[j];
        }
      }
      assert Sorted(b) by {
        forall i, j | 0 <= i < j < |b| ensures Less(b[i], b[j]) {
          assert b[i] == s[|a| + 1 + i] && b[j] == s[|a| + 1 + j];
        }
      }
      forall x | x in a ensures Less(x, v) {
        var i :| 0 <= i < |a| && a[i] == x;
        assert s[i] == x && s[|a|] == v;
      }
      forall x | x in b ensures Less(v, x) {
        var i :| 0 <= i < |b| && b[i] == x;
        assert s[|a| + 1 + i] == x && s[|a|] == v;
      }
    }
    if Sorted(a) && Sorted(b) && AllLess(a, v) && AllGreater(b, v) {
      forall i, j | 0 <= i < j < |s| ensures Less(s[i], s[j]) {
        if j < |a| {
          assert s[i] == a[i] && s[j] == a[j];
        } else if i > |a| {
          assert s[i] == b[i - |a| - 1] && s[j] == b[j - |a| - 1];
        } else if i == |a| {
          assert s[j] == b[j - |a| - 1];
          assert s[j] in b;
        } else if j == |a| {
          assert s[i] == a[i];
          assert s[i] in a;
        } else {
          assert s[i] == a[i] && s[j] == b[j - |a| - 1];
          assert s[i] in a && s[j] in b;
          LessTransitive(s[i], v, s[j]);
        }
      }
    }
  }

  /** The two halves of a sorted sequence are sorted. */
  lemma SortedParts(a: seq<string>, b: seq<string>)
    requires Sorted(a + b)
    ensures Sorted(a) && Sorted(b)
  {
    var s := a + b;
    forall i, j | 0 <= i < j < |a| ensures Less(a[i], a[j]) {
      assert a[i] == s[i] && a[j] == s[j];
    }
    forall i, j | 0 <= i < j < |b| ensures Less(b[i], b[j]) {
      assert b[i] == s[|a| + i] && b[j] == s[|a| + j];
    }
  }

  /** A key that fits between the two halves of a sorted sequence can be
      placed there. */
  lemma InsertBetween(a: seq<string>, v: string, b: seq<string>)
    requires Sorted(a + b) && AllLess(a, v) && AllGreater(b, v)
    ensures Sorted(a + [v] + b)
    ensures multiset(a + [v] + b) == multiset(a + b) + multiset{v}
  {
    SortedParts(a, b);
    SortedConcat(a, v, b);
  }

  /** Regrouping the pieces around a key. */
  lemma Regroup(a1: seq<string>, a2: seq<string>, v: string, b1: seq<string>, b2: seq<string>)
    ensures a1 + (a2 + [v] + b1) + b2 == (a1 + a2) + [v] + (b1 + b2)
    ensures a1 + a2 + b1 + b2 == (a1 + a2) + (b1 + b2)
  {
  }

  /** The sequence algebra of unlinking a subtree's minimum `m`: the
      subtree was [m] + rest, and what remains after unlinking is rest. */
  lemma MinimumRemoved(bz: seq<string>, l: seq<string>, m: string, mr: seq<string>, am: seq<string>,
                       az: seq<string>, zr: seq<string>, rest: seq<string>)
    requires zr == [] + ([] + [m] + mr) + am && rest == [] + mr + am
    ensures bz + (l + [m] + rest) + az == bz + l + zr + az
  {
    assert zr == [m] + rest;
  }

  /** Taking a key out of a sorted sequence leaves it sorted. */
  lemma RemoveBetween(a: seq<string>, v: string, b: seq<string>)
    requires Sorted(a + [v] + b)
    ensures Sorted(a + b)
    ensures multiset(a + b) == multiset(a + [v] + b) - multiset{v}
  {
    SortedConcat(a, v, b);
    var s := a + b;
    forall i, j | 0 <= i < j < |s| ensures Less(s[i], s[j]) {
      if j < |a| {
        assert s[i] == a[i] && s[j] == a[j];
      } else if i >= |a| {
        assert s[i] == b[i - |a|] && s[j] == b[j - |a|];
      } else {
        assert s[i] == a[i] && s[j] == b[j - |a|];
        assert s[i] in a && s[j] in b;
        LessTransitive(s[i], v, s[j]);
      }
    }
  }

  /** A strictly increasing sequence holds each key at most once. */
  lemma SortedNoDuplicates(s: seq<string>, x: string)
    requires Sorted(s)
    ensures multiset(s)[x] <= 1
  {
    if s != [] {
      assert Sorted(s[1..]) by {
        forall i, j | 0 <= i < j < |s[1..]| ensures Less(s[1..][i], s[1..][j]) {
          assert s[1..][i] == s[i + 1] && s[1..][j] == s[j + 1];
        }
      }
      SortedNoDuplicates(s[1..], x);
      assert s == [s[0]] + s[1..];
      if s[0] == x {
        forall k | 0 <= k < |s[1..]| ensures s[1..][k] != x {
          assert s[1..][k] == s[k + 1];
          LessTrichotomy(s[0], s[k + 1]);
        }
        assert x !in s[1..];
      }
    }
  }

  /** Adding one key to a subtree adds it to the whole node. */
  lemma MultisetAddLeft(a: seq<string>, a': seq<string>, x: string, b: seq<string>, v: string)
    requires multiset(a') == multiset(a) + multiset{v}
    ensures multiset(a' + [x] + b) == multiset(a + [x] + b) + multiset{v}
  {
  }

  lemma MultisetAddRight(a: seq<string>, x: string, b: seq<string>, b': seq<string>, v: string)
    requires multiset(b') == multiset(b) + multiset{v}
    ensures multiset(a + [x] + b') == multiset(a + [x] + b) + multiset{v}
  {
  }

  /** Removing a key from the one subtree that can hold it removes it from
      the whole node. */
  lemma MultisetRemoveLeft(a: seq<string>, a': seq<string>, x: string, b: seq<string>, k: string)
    requires multiset(a') == multiset(a) - multiset{k} && k != x && k !in b
    ensures multiset(a' + [x] + b) == multiset(a + [x] + b) - multiset{k}
  {
  }

  lemma MultisetRemoveRight(a: seq<string>, x: string, b: seq<string>, b': seq<string>, k: string)
    requires multiset(b') == multiset(b) - multiset{k} && k != x && k !in a
    ensures multiset(a + [x] + b') == multiset(a + [x] + b) - multiset{k}
  {
  }

  /** The two-children deletion: the predecessor leaves the left subtree
      and takes the deleted key's place. */
  lemma MultisetReplaceByPredecessor(a: seq<string>, a': seq<string>, p: string, x: string, b: seq<string>)
    requires multiset(a') == multiset(a) - multiset{p} && p in a
    requires multiset(a + [x] + b)[x] == 1
    ensures multiset(a' + [p] + b) == multiset(a + [x] + b) - multiset{x}
  {
  }

  /** Removing a node with no left, or no right, subtree. */
  lemma MultisetRemoveSplice(a: seq<string>, x: string, b: seq<string>)
    ensures a == [] ==> multiset(a + [x] + b) - multiset{x} == multiset(b)
    ensures b == [] ==> multiset(a + [x] + b) - multiset{x} == multiset(a)
  {
    if a == [] {
      assert a + [x] + b == [x] + b;
    }
    if b == [] {
      assert a + [x] + b == a + [x];
    }
  }

  /** A bound on every key of a subtree survives adding a key within it. */
  lemma AllLessAfterAdd(a: seq<string>, a': seq<string>, v: string, x: string)
    requires multiset(a') == multiset(a) + multiset{v} && AllLess(a, x) && Less(v, x)
    ensures AllLess(a', x)
  {
    forall y | y in a' ensures Less(y, x) {
      assert y in multiset(a');
    }
  }

  lemma AllGreaterAfterAdd(a: seq<string>, a': seq<string>, v: string, x: string)
    requires multiset(a') == multiset(a) + multiset{v} && AllGreater(a, x) && Less(x, v)
    ensures AllGreater(a', x)
  {
    forall y | y in a' ensures Less(x, y) {
      assert y in multiset(a');
    }
  }

  /** ... and survives removing a key. */
  lemma AllLessAfterRemove(a: seq<string>, a': seq<string>, k: string, x: string)
    requires multiset(a') == multiset(a) - multiset{k} && AllLess(a, x)
    ensures AllLess(a', x)
  {
    forall y | y in a' ensures Less(y, x) {
      assert y in multiset(a');
    }
  }

  lemma AllGreaterAfterRemove(a: seq<string>, a': seq<string>, k: string, x: string)
    requires multiset(a') == multiset(a) - multiset{k} && AllGreater(a, x)
    ensures AllGreater(a', x)
  {
    forall y | y in a' ensures Less(x, y) {
      assert y in multiset(a');
    }
  }

  /** Removing the single copy of the largest key leaves only smaller keys. */
  lemma AllLessAfterRemovingMaximum(a: seq<string>, a': seq<string>, p: string)
    requires multiset(a') == multiset(a) - multiset{p} && multiset(a)[p] <= 1
    requires forall y :: y in a && y != p ==> Less(y, p)
    ensures AllLess(a', p)
  {
    forall y | y in a' ensures Less(y, p) {
      assert y in multiset(a');
    }
  }

  /** Counting keys through their multisets. */
  lemma MultisetAddCount(s: seq<string>, s': seq<string>, v: string)
    requires multiset(s') == multiset(s) + multiset{v}
    ensures |s'| == |s| + 1
  {
    assert |multiset(s')| == |multiset(s)| + 1;
  }

  lemma MultisetRemoveCount(s: seq<string>, s': seq<string>, v: string)
    requires v in s && multiset(s') == multiset(s) - multiset{v}
    ensures |s'| == |s| - 1
  {
    assert v in multiset(s);
    assert |multiset(s')| == |multiset(s)| - 1;
  }

  /** The keys of a sequence, as a set. */
  ghost function Elements(s: seq<string>): set<string> {
    set x | x in s
  }

  lemma ElementsAdd(s: seq<string>, s': seq<string>, v: string)
    requires multiset(s') == multiset(s) + multiset{v}
    ensures Elements(s') == Elements(s) + {v}
  {
    forall x ensures x in s' <==> x in s || x == v {
      assert x in s' <==> x in multiset(s');
      assert x in s <==> x in multiset(s);
    }
  }

  lemma ElementsRemove(s: seq<string>, s': seq<string>, v: string)
    requires multiset(s') == multiset(s) - multiset{v} && multiset(s)[v] <= 1
    ensures Elements(s') == Elements(s) - {v}
  {
    forall x ensures x in s' <==> x in s && x != v {
      assert x in s' <==> x in multiset(s');
      assert x in s <==> x in multiset(s);
    }
  }

  /** Two to the power n. */
  function Pow2(n: nat): nat {
    if n == 0 then 1 else 2 * Pow2(n - 1)
  }

  lemma {:induction false} PowMonotone(a: nat, b: nat)
    requires a <= b
    ensures Pow2(a) <= Pow2(b)
    decreases b
  {
    if a < b {
      PowMonotone(a, b - 1);
    }
  }

  /** The regroupings of rebuilding a node above a subtree, on its left
      and on its right side. */
  lemma ParentRegroup<T>(b: seq<T>, l: seq<T>, v: seq<T>, r: seq<T>, a: seq<T>)
    ensures b + (l + v + r) + a == b + l + (v + r + a)
    ensures b + (l + v + r) + a == b + l + v + r + a
  {
  }

  /** The regrouping a rotation performs on an in-order sequence. */
  lemma RotationRegroup<T>(a: seq<T>, x: seq<T>, b: seq<T>, y: seq<T>, d: seq<T>)
    ensures a + x + b + y + d == a + x + (b + y + d)
  {
  }
}
