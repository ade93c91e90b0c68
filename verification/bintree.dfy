/**
 * Binary search tree of NodeData (Assignment2/bintree.cpp).
 *
 * The pointer structure becomes an immutable datatype and every mutating
 * member returns the new tree. NodeData is only ever compared with <, >
 * and ==, so an integer key under its usual total order stands in for it.
 */
module BinTree {
  import opened Options
  import opened Numbers

  /** The ordered payload of a node (NodeData). */
  type Key = int

  datatype Tree = Leaf | Node(left: Tree, data: Key, right: Tree)

  /** The array slots arrayToBSTree scans (the array is fixed to 100 entries). */
  const ARRAY_SLOTS: nat := 100

  /* ---------------------------------------------------------------- *
   * Reference definitions
   * ---------------------------------------------------------------- */

  function Elems(t: Tree): set<Key>
  {
    match t
    case Leaf => {}
    case Node(l, k, r) => Elems(l) + {k} + Elems(r)
  }

  function Size(t: Tree): nat
  {
    match t
    case Leaf => 0
    case Node(l, _, r) => Size(l) + 1 + Size(r)
  }

  function InOrder(t: Tree): seq<Key>
  {
    match t
    case Leaf => []
    case Node(l, k, r) => InOrder(l) + [k] + InOrder(r)
  }

  function PreOrder(t: Tree): seq<Key>
  {
    match t
    case Leaf => []
    case Node(l, k, r) => [k] + PreOrder(l) + PreOrder(r)
  }

  /** Nodes on the longest root-to-leaf path; a single node has height 1. */
  function Height(t: Tree): nat
  {
    match t
    case Leaf => 0
    case Node(l, _, r) => 1 + Max(Height(l), Height(r))
  }

  /** Every key in the left subtree is smaller and every key in the right
      subtree larger than the node's own key, at every node. */
  predicate IsBst(t: Tree)
  {
    match t
    case Leaf => true
    case Node(l, k, r) =>
      && IsBst(l) && IsBst(r)
      && (forall x :: x in Elems(l) ==> x < k)
      && (forall x :: x in Elems(r) ==> x > k)
  }

  /** At every node the two subtree heights differ by at most one. */
  predicate Balanced(t: Tree)
  {
    match t
    case Leaf => true
    case Node(l, _, r) =>
      && Balanced(l) && Balanced(r)
      && Height(l) <= Height(r) + 1 && Height(r) <= Height(l) + 1
  }

  predicate IsSubtree(s: Tree, t: Tree)
  {
    s == t || (t.Node? && (IsSubtree(s, t.left) || IsSubtree(s, t.right)))
  }

  predicate Sorted(s: seq<Key>)
  {
    forall i, j :: 0 <= i < j < |s| ==> s[i] < s[j]
  }

  lemma {:induction false} InOrderFacts(t: Tree)
    ensures |InOrder(t)| == Size(t)
    ensures forall x :: x in InOrder(t) <==> x in Elems(t)
    ensures forall x :: x in PreOrder(t) <==> x in Elems(t)
  {
    match t
    case Leaf =>
    case Node(l, k, r) =>
      InOrderFacts(l);
      InOrderFacts(r);
  }

  lemma PreOrderElems(t: Tree)
    ensures (set x | x in PreOrder(t)) == Elems(t)
  {
    InOrderFacts(t);
    assert forall x :: x in (set y | y in PreOrder(t)) <==> x in Elems(t);
  }

  lemma SameInOrderSameElems(a: Tree, b: Tree)
    requires InOrder(a) == InOrder(b)
    ensures Elems(a) == Elems(b)
  {
    InOrderFacts(a);
    InOrderFacts(b);
    forall x | x in Elems(a)
      ensures x in Elems(b)
    {
      assert x in InOrder(a);
    }
    forall x | x in Elems(b)
      ensures x in Elems(a)
    {
      assert x in InOrder(b);
    }
  }

  /** The in-order sequence of a search tree is strictly increasing. */
  lemma {:induction false} InOrderSorted(t: Tree)
    requires IsBst(t)
    ensures Sorted(InOrder(t))
  {
    match t
    case Leaf =>
    case Node(l, k, r) =>
      InOrderSorted(l);
      InOrderSorted(r);
      InOrderFacts(l);
      InOrderFacts(r);
      var sl, sr := InOrder(l), InOrder(r);
      var s := sl + [k] + sr;
      forall i, j | 0 <= i < j < |s|
        ensures s[i] < s[j]
      {
        if j < |sl| {
        } else if i < |sl| {
          assert sl[i] in Elems(l);
          if j > |sl| {
            assert sr[j - |sl| - 1] in Elems(r);
          }
        } else if i == |sl| {
          assert sr[j - |sl| - 1] in Elems(r);
        }
      }
  }

  /* ---------------------------------------------------------------- *
   * insert
   * ---------------------------------------------------------------- */

  /** insert: go right when the new key is greater, left when it is
      smaller, and give up on an equal key; the key lands as a new leaf.
      The result is (inserted, tree after the call). */
  function Insert(t: Tree, k: Key): (r: (bool, Tree))
    ensures !r.0 ==> r.1 == t && k in Elems(t)
    ensures r.0 ==> Elems(r.1) == Elems(t) + {k} && Size(r.1) == Size(t) + 1
    ensures IsBst(t) ==> IsBst(r.1) && (r.0 <==> k !in Elems(t))
  {
    match t
    case Leaf => (true, Node(Leaf, k, Leaf))
    case Node(l, x, rt) =>
      if k > x then
        var sub := Insert(rt, k);
        (sub.0, Node(l, x, sub.1))
      else if k < x then
        var sub := Insert(l, k);
        (sub.0, Node(sub.1, x, rt))
      else
        (false, t)
  }

  /** Inserting keys one after another, as operator= does: a search tree
      stays one, and each key adds at most one node. */
  function InsertAll(t: Tree, ks: seq<Key>): (r: Tree)
    ensures IsBst(t) ==> IsBst(r)
    ensures Size(t) <= Size(r) <= Size(t) + |ks|
    decreases |ks|
  {
    if |ks| == 0 then t else InsertAll(Insert(t, ks[0]).1, ks[1..])
  }

  lemma {:induction false} InsertAllElems(t: Tree, ks: seq<Key>)
    ensures Elems(InsertAll(t, ks)) == Elems(t) + set x | x in ks
    decreases |ks|
  {
    if |ks| > 0 {
      InsertAllElems(Insert(t, ks[0]).1, ks[1..]);
      assert (set x | x in ks) == {ks[0]} + set x | x in ks[1..];
    }
  }

  lemma {:induction false} InsertAllConcat(t: Tree, a: seq<Key>, b: seq<Key>)
    ensures InsertAll(t, a + b) == InsertAll(InsertAll(t, a), b)
    decreases |a|
  {
    if |a| > 0 {
      assert (a + b)[0] == a[0];
      assert (a + b)[1..] == a[1..] + b;
      InsertAllConcat(Insert(t, a[0]).1, a[1..], b);
    } else {
      assert a + b == b;
    }
  }

  /** Keys all below the root's key only ever reach its left subtree. */
  lemma {:induction false} InsertAllBelow(l: Tree, k: Key, r: Tree, ks: seq<Key>)
    requires forall i :: 0 <= i < |ks| ==> ks[i] < k
    ensures InsertAll(Node(l, k, r), ks) == Node(InsertAll(l, ks), k, r)
    decreases |ks|
  {
    if |ks| > 0 {
      InsertAllBelow(Insert(l, ks[0]).1, k, r, ks[1..]);
    }
  }

  /** Keys all above the root's key only ever reach its right subtree. */
  lemma {:induction false} InsertAllAbove(l: Tree, k: Key, r: Tree, ks: seq<Key>)
    requires forall i :: 0 <= i < |ks| ==> ks[i] > k
    ensures InsertAll(Node(l, k, r), ks) == Node(l, k, InsertAll(r, ks))
    decreases |ks|
  {
    if |ks| > 0 {
      InsertAllAbove(l, k, Insert(r, ks[0]).1, ks[1..]);
    }
  }

  /** Inserting a search tree's keys in pre-order into an empty tree
      rebuilds exactly that tree. */
  lemma {:induction false} PreOrderRebuilds(t: Tree)
    requires IsBst(t)
    ensures InsertAll(Leaf, PreOrder(t)) == t
  {
    match t
    case Leaf =>
    case Node(l, k, r) =>
      InOrderFacts(l);
      InOrderFacts(r);
      var pl, pr := PreOrder(l), PreOrder(r);
      assert PreOrder(t) == [k] + (pl + pr);
      InsertAllConcat(Node(Leaf, k, Leaf), pl, pr);
      forall i | 0 <= i < |pl|
        ensures pl[i] < k
      {
        assert pl[i] in PreOrder(l);
      }
      forall i | 0 <= i < |pr|
        ensures pr[i] > k
      {
        assert pr[i] in PreOrder(r);
      }
      InsertAllBelow(Leaf, k, Leaf, pl);
      PreOrderRebuilds(l);
      InsertAllAbove(l, k, Leaf, pr);
      PreOrderRebuilds(r);
  }

  /* ---------------------------------------------------------------- *
   * findNode, retrieve, getHeight
   * ---------------------------------------------------------------- */

  /** findNode: a pre-order walk of the whole tree (not just the search
      path) that stops descending at a match but keeps visiting later
      siblings, so the last match it meets wins. */
  function FindNode(t: Tree, k: Key): (r: Option<Tree>)
    ensures r.None? <==> k !in Elems(t)
    ensures r.Some? ==> r.value.Node? && r.value.data == k && IsSubtree(r.value, t)
  {
    match t
    case Leaf => None
    case Node(l, x, rt) =>
      if x == k then Some(t)
      else
        var inRight := FindNode(rt, k);
        if inRight.Some? then inRight else FindNode(l, k)
  }

  /** retrieve(nd, out): true with out set to the stored data when some
      node anywhere in the tree equals nd; otherwise false and out as it
      was. */
  function Retrieve(t: Tree, k: Key, out: Option<Key>): (r: (bool, Option<Key>))
    ensures r.0 <==> k in Elems(t)
    ensures r.0 ==> r.1 == Some(k)
    ensures !r.0 ==> r.1 == out
  {
    match FindNode(t, k)
    case None => (false, out)
    case Some(node) => (node.data == k, Some(node.data))
  }

  /** The search inside getHeight: pre-order, the left subtree's match
      preferred over the right's. */
  function FindFirst(t: Tree, k: Key): (r: Option<Tree>)
    ensures r.None? <==> k !in Elems(t)
    ensures r.Some? ==> r.value.Node? && r.value.data == k && IsSubtree(r.value, t)
  {
    match t
    case Leaf => None
    case Node(l, x, rt) =>
      if x == k then Some(t)
      else
        var inLeft := FindFirst(l, k);
        if inLeft.Some? then inLeft else FindFirst(rt, k)
  }

  /** h_getHeight: a pre-order walk that raises `height` to the depth of
      every node it meets. */
  function Deepest(t: Tree, depth: nat, height: nat): nat
  {
    match t
    case Leaf => height
    case Node(l, _, r) => Deepest(r, depth + 1, Deepest(l, depth + 1, Max(height, depth)))
  }

  /** Starting below a node already counted, the walk finds the subtree's
      height on top of the depth it starts from. */
  lemma {:induction false} DeepestIsHeight(t: Tree, depth: nat, height: nat)
    requires depth >= 1 && height >= depth - 1
    ensures Deepest(t, depth, height) == Max(height, depth - 1 + Height(t))
  {
    match t
    case Leaf =>
    case Node(l, _, r) =>
      var m := Max(height, depth);
      DeepestIsHeight(l, depth + 1, m);
      DeepestIsHeight(r, depth + 1, Deepest(l, depth + 1, m));
  }

  /** getHeight(nd): 0 when no node holds nd, otherwise the height of the
      subtree rooted at the first such node. */
  function GetHeight(t: Tree, k: Key): (r: nat)
    ensures k !in Elems(t) ==> r == 0
    ensures k in Elems(t) ==> r >= 1 && r == Height(FindFirst(t, k).value)
  {
    match FindFirst(t, k)
    case None => 0
    case Some(node) =>
      DeepestIsHeight(node, 1, 1);
      Deepest(node, 1, 1)
  }

  /* ---------------------------------------------------------------- *
   * operator==, operator=, makeEmpty, isEmpty
   * ---------------------------------------------------------------- */

  /** h_equivalence: both null, or both present with equal data and
      equivalent children. operator!= is its negation. */
  function Equal(a: Tree, b: Tree): (r: bool)
    ensures r ==> Size(a) == Size(b) && InOrder(a) == InOrder(b)
  {
    if a.Leaf? || b.Leaf? then a.Leaf? && b.Leaf?
    else a.data == b.data && Equal(a.left, b.left) && Equal(a.right, b.right)
  }

  /** Equivalence is exactly equality of shape and data. */
  lemma {:induction false} EqualIsSameTree(a: Tree, b: Tree)
    ensures Equal(a, b) <==> a == b
  {
    if a.Node? && b.Node? {
      EqualIsSameTree(a.left, b.left);
      EqualIsSameTree(a.right, b.right);
    }
  }

  /** isEmpty: no root. (A root without data cannot arise here.) */
  function IsEmpty(t: Tree): (r: bool)
    ensures r <==> Size(t) == 0
    ensures r <==> Elems(t) == {}
  {
    t.Leaf?
  }

  /** makeEmpty: every node released. */
  function MakeEmpty(t: Tree): (r: Tree)
    ensures IsEmpty(r) && Elems(r) == {} && Size(r) <= Size(t)
  {
    Leaf
  }

  /** operator= (and the copy constructor, with an empty dst): nothing
      happens when the trees are already equal; otherwise dst is emptied
      and src's keys are inserted in pre-order. */
  function Assign(dst: Tree, src: Tree): (r: Tree)
    ensures Elems(r) == Elems(src)
    ensures IsBst(src) ==> r == src
  {
    EqualIsSameTree(dst, src);
    InOrderFacts(src);
    InsertAllElems(Leaf, PreOrder(src));
    PreOrderElems(src);
    assert IsBst(src) ==> InsertAll(Leaf, PreOrder(src)) == src by {
      if IsBst(src) {
        PreOrderRebuilds(src);
      }
    }
    if Equal(dst, src) then dst else InsertAll(MakeEmpty(dst), PreOrder(src))
  }

  /* ---------------------------------------------------------------- *
   * bstreeToArray
   * ---------------------------------------------------------------- */

  /** h_bstreeToArray: left subtree, node, right subtree, each appended at
      the next free index. */
  function Flatten(t: Tree, written: seq<Key>): seq<Key>
  {
    match t
    case Leaf => written
    case Node(l, k, r) => Flatten(r, Flatten(l, written) + [k])
  }

  lemma {:induction false} FlattenIsInOrder(t: Tree, written: seq<Key>)
    ensures Flatten(t, written) == written + InOrder(t)
  {
    match t
    case Leaf =>
    case Node(l, k, r) =>
      FlattenIsInOrder(l, written);
      FlattenIsInOrder(r, written + InOrder(l) + [k]);
  }

  /** bstreeToArray: the entries written from index 0 and the (empty) tree
      left behind. */
  function BstreeToArray(t: Tree): (r: (seq<Key>, Tree))
    ensures r.0 == InOrder(t)
    ensures |r.0| == Size(t) && forall x :: x in r.0 <==> x in Elems(t)
    ensures IsBst(t) ==> Sorted(r.0)
    ensures IsEmpty(r.1)
  {
    InOrderFacts(t);
    assert IsBst(t) ==> Sorted(InOrder(t)) by {
      if IsBst(t) {
        InOrderSorted(t);
      }
    }
    if IsEmpty(t) then ([], t)
    else
      FlattenIsInOrder(t, []);
      (Flatten(t, []), MakeEmpty(t))
  }

  /* ---------------------------------------------------------------- *
   * arrayToBSTree
   * ---------------------------------------------------------------- */

  /** numElements: the run of non-null slots from index i, never beyond
      the array's 100 slots (a slot past the end of the sequence reads as
      null). */
  function LeadingCount(arr: seq<Option<Key>>, i: nat): (n: nat)
    requires i <= ARRAY_SLOTS && i <= |arr|
    ensures i <= n <= ARRAY_SLOTS && n <= |arr|
    ensures forall j :: i <= j < n ==> arr[j].Some?
    ensures n < ARRAY_SLOTS && n < |arr| ==> arr[n].None?
    decreases ARRAY_SLOTS - i
  {
    if i == ARRAY_SLOTS || i == |arr| || arr[i].None? then i else LeadingCount(arr, i + 1)
  }

  /** rightSize: the slots after the midpoint. */
  function RightSize(size: nat): nat
  {
    if size == 0 then 0 else size - size / 2 - 1
  }

  /** A copy loop `for i < bound: dest[i] = src[offset + i]` into a
      destination of destLen slots; None marks the first write past the
      destination or read past the source. */
  function CopyLoop(src: seq<Key>, offset: nat, destLen: nat, bound: nat, dest: seq<Key>): Option<seq<Key>>
    decreases bound - |dest|
  {
    var i := |dest|;
    if i >= bound then Some(dest)
    else if i >= destLen || offset + i >= |src| then None
    else CopyLoop(src, offset, destLen, bound, dest + [src[offset + i]])
  }

  /** The right-half copy as written: the loop runs size - rightSize times
      into a rightSize-slot array. Every subarray that has a right half
      (size > 2) makes it write past that array. */
  function CopyRightAsWritten(sub: seq<Key>): (r: Option<seq<Key>>)
    ensures |sub| > 2 ==> r.None?
  {
    var offset, count, bound := |sub| / 2 + 1, RightSize(|sub|), |sub| - RightSize(|sub|);
    assert |sub| > 2 ==> CopyLoop(sub, offset, count, bound, []).None? by {
      if |sub| > 2 {
        CopyLoopOverruns(sub, offset, count, bound, []);
      }
    }
    CopyLoop(sub, offset, count, bound, [])
  }

  /** The right-half copy as intended: exactly rightSize entries, which are
      the entries after the midpoint. */
  function CopyRight(sub: seq<Key>): (r: Option<seq<Key>>)
    ensures |sub| >= 1 ==> r == Some(sub[|sub| / 2 + 1..])
  {
    var offset, count := |sub| / 2 + 1, RightSize(|sub|);
    assert |sub| >= 1 ==> CopyLoop(sub, offset, count, count, []) == Some(sub[offset..]) by {
      if |sub| >= 1 {
        CopyLoopCopies(sub, offset, count, []);
        assert sub[offset..offset + count] == sub[offset..];
      }
    }
    CopyLoop(sub, offset, count, count, [])
  }

  lemma {:induction false} CopyLoopCopies(src: seq<Key>, offset: nat, count: nat, dest: seq<Key>)
    requires offset + count <= |src| && |dest| <= count
    requires dest == src[offset..offset + |dest|]
    ensures CopyLoop(src, offset, count, count, dest) == Some(src[offset..offset + count])
    decreases count - |dest|
  {
    if |dest| < count {
      CopyLoopCopies(src, offset, count, dest + [src[offset + |dest|]]);
    }
  }

  lemma {:induction false} CopyLoopOverruns(src: seq<Key>, offset: nat, destLen: nat, bound: nat, dest: seq<Key>)
    requires |dest| <= destLen < bound
    ensures CopyLoop(src, offset, destLen, bound, dest) == None
    decreases destLen - |dest|
  {
    if |dest| < destLen && offset + |dest| < |src| {
      CopyLoopOverruns(src, offset, destLen, bound, dest + [src[offset + |dest|]]);
    }
  }

  /** The height of the tree Build makes from n entries. */
  ghost function BuildHeight(n: nat): nat
  {
    if n == 0 then 0 else 1 + BuildHeight(n / 2)
  }

  lemma {:induction false} BuildHeightMonotone(a: nat, b: nat)
    requires a <= b
    ensures BuildHeight(a) <= BuildHeight(b)
    decreases b
  {
    if a > 0 {
      BuildHeightMonotone(a / 2, b / 2);
    }
  }

  lemma BuildHeightStep(n: nat)
    requires n >= 1
    ensures BuildHeight(n) <= BuildHeight(n - 1) + 1
  {
    if n >= 2 {
      BuildHeightMonotone(n / 2, n - 1);
    }
  }

  /** h_arrayToBSTree on a fresh node: the midpoint at the root, the left
      half below it on the left and, through the corrected right copy, the
      entries after the midpoint on the right. */
  function Build(xs: seq<Key>): (t: Tree)
    requires |xs| >= 1
    ensures t.Node? && t.data == xs[|xs| / 2]
    decreases |xs|
  {
    var n := |xs|;
    if n == 1 then Node(Leaf, xs[0], Leaf)
    else
      var left := Build(xs[..n / 2]);
      var right := if n > 2 then Build(CopyRight(xs).value) else Leaf;
      Node(left, xs[n / 2], right)
  }

  /** The built tree lists the entries in their array order. */
  lemma {:induction false} BuildInOrder(xs: seq<Key>)
    requires |xs| >= 1
    ensures InOrder(Build(xs)) == xs
    decreases |xs|
  {
    var n := |xs|;
    if n > 1 {
      var lx, rx := xs[..n / 2], xs[n / 2 + 1..];
      assert xs == lx + [xs[n / 2]] + rx;
      BuildInOrder(lx);
      if n > 2 {
        BuildInOrder(rx);
      } else {
        assert rx == [];
      }
    }
  }

  /** The built tree is balanced: its height grows with log2 of the entry
      count and its two halves differ by at most one level. */
  lemma {:induction false} BuildBalanced(xs: seq<Key>)
    requires |xs| >= 1
    ensures Height(Build(xs)) == BuildHeight(|xs|) && Balanced(Build(xs))
    decreases |xs|
  {
    var n := |xs|;
    if n > 1 {
      var lx, rx := xs[..n / 2], xs[n / 2 + 1..];
      assert |lx| == n / 2 && |rx| == RightSize(n);
      var left := Build(lx);
      var right := if n > 2 then Build(rx) else Leaf;
      assert Build(xs) == Node(left, xs[n / 2], right);
      BuildBalanced(lx);
      if n > 2 {
        BuildBalanced(rx);
      }
      assert Height(right) == BuildHeight(RightSize(n));
      BuildHeightHalves(n);
    }
  }

  /** The halves of n entries differ by at most one level, and the larger
      one sets the height. */
  lemma BuildHeightHalves(n: nat)
    requires n >= 2
    ensures BuildHeight(n) == 1 + BuildHeight(n / 2)
    ensures BuildHeight(RightSize(n)) <= BuildHeight(n / 2) <= BuildHeight(RightSize(n)) + 1
  {
    BuildHeightMonotone(RightSize(n), n / 2);
    BuildHeightStep(n / 2);
    BuildHeightMonotone(n / 2 - 1, RightSize(n));
  }

  /** Strictly increasing entries build a search tree. */
  lemma {:induction false} BuildIsBst(xs: seq<Key>)
    requires |xs| >= 1 && Sorted(xs)
    ensures IsBst(Build(xs))
    decreases |xs|
  {
    var n := |xs|;
    if n > 1 {
      var m := n / 2;
      var lx, rx := xs[..m], xs[m + 1..];
      var left := Build(lx);
      var right := if n > 2 then Build(rx) else Leaf;
      assert Build(xs) == Node(left, xs[m], right);
      SortedAround(xs, m, lx, rx);
      BuildIsBst(lx);
      BuildElems(lx);
      if n > 2 {
        BuildIsBst(rx);
        BuildElems(rx);
      }
    }
  }

  /** The built tree holds exactly the entries. */
  lemma BuildElems(xs: seq<Key>)
    requires |xs| >= 1
    ensures forall x :: x in Elems(Build(xs)) <==> x in xs
  {
    BuildInOrder(xs);
    InOrderFacts(Build(xs));
  }

  /** In a sorted sequence everything before slot m (lo) is smaller than
      its entry and everything after it (hi) larger; both sides stay sorted. */
  lemma SortedAround(xs: seq<Key>, m: nat, lo: seq<Key>, hi: seq<Key>)
    requires Sorted(xs) && m < |xs| && lo == xs[..m] && hi == xs[m + 1..]
    ensures Sorted(lo) && Sorted(hi)
    ensures forall x :: x in lo ==> x < xs[m]
    ensures forall x :: x in hi ==> x > xs[m]
  {
    forall x | x in lo
      ensures x < xs[m]
    {
      var i :| 0 <= i < m && lo[i] == x;
    }
    forall x | x in hi
      ensures x > xs[m]
    {
      var i :| 0 <= i < |hi| && hi[i] == x;
      assert xs[m + 1 + i] == x;
    }
  }

  /** h_arrayToBSTree on the tree's existing root: a node that already
      exists keeps the children the recursion does not replace, so with one
      or two entries an old subtree survives. */
  function Fill(t: Tree, xs: seq<Key>): (r: Tree)
    requires |xs| >= 1
    ensures t.Leaf? || |xs| >= 3 ==> InOrder(r) == xs && Balanced(r) && r.data == xs[|xs| / 2]
    ensures t.Node? && |xs| <= 2 ==> r.Node? && r.data == xs[|xs| - 1] && r.right == t.right
    ensures t.Node? && |xs| == 1 ==> r.left == t.left
    ensures t.Node? && |xs| == 2 ==> InOrder(r.left) == xs[..1]
  {
    BuildInOrder(xs);
    BuildBalanced(xs);
    match t
    case Leaf => Build(xs)
    case Node(l, _, r) =>
      if |xs| == 1 then Node(l, xs[0], r)
      else if |xs| == 2 then
        BuildInOrder(xs[..1]);
        Node(Build(xs[..1]), xs[1], r)
      else Build(xs)
  }

  /** arrayToBSTree: nothing happens when the first slot is null; otherwise
      the leading non-null entries (at most 100) are built into the tree and
      their slots are cleared. The result is (tree, array). */
  function ArrayToBSTree(t: Tree, arr: seq<Option<Key>>): (r: (Tree, seq<Option<Key>>))
    ensures |arr| == 0 || arr[0].None? ==> r == (t, arr)
    ensures |r.1| == |arr|
    ensures |arr| > 0 && arr[0].Some? ==>
      var n := LeadingCount(arr, 0);
      var xs := seq(n, i requires 0 <= i < n => arr[i].value);
      && (forall i :: 0 <= i < |arr| ==> r.1[i] == if i < n then None else arr[i])
      && (IsEmpty(t) ==> InOrder(r.0) == xs && r.0.data == xs[n / 2] && Balanced(r.0))
      && (IsEmpty(t) && Sorted(xs) ==> IsBst(r.0))
  {
    if |arr| == 0 || arr[0].None? then (t, arr)
    else
      var n := LeadingCount(arr, 0);
      var xs := seq(n, i requires 0 <= i < n => arr[i].value);
      BuildInOrder(xs);
      BuildBalanced(xs);
      assert Sorted(xs) ==> IsBst(Build(xs)) by {
        if Sorted(xs) {
          BuildIsBst(xs);
        }
      }
      (Fill(t, xs), seq(|arr|, i requires 0 <= i < |arr| => if i < n then None else arr[i]))
  }

  /** On a tree that already has a root, one entry only replaces the root's
      key: the old subtrees stay. */
  lemma ArrayToBSTreeKeepsOldChildren(l: Tree, x: Key, r: Tree, k: Key)
    ensures ArrayToBSTree(Node(l, x, r), [Some(k), None]).0 == Node(l, k, r)
  {
    assert LeadingCount([Some(k), None], 0) == 1;
  }

  /** bstreeToArray's writes into the caller's array: the keys fill slots
      0, 1, ... and every later slot keeps what it held. */
  function WriteKeys(arr: seq<Option<Key>>, ks: seq<Key>): (r: seq<Option<Key>>)
    requires |ks| <= |arr|
    ensures |r| == |arr| && r[..|ks|] == seq(|ks|, i requires 0 <= i < |ks| => Some(ks[i]))
    ensures r[|ks|..] == arr[|ks|..]
  {
    seq(|arr|, i requires 0 <= i < |arr| => if i < |ks| then Some(ks[i]) else arr[i])
  }

  /** bstreeToArray into an array whose slot after the written keys is null
      (or that the keys fill), then arrayToBSTree, rebuilds a balanced search
      tree with the same keys in the same order. bstreeToArray writes no
      terminator, so that null slot is the caller's part. */
  lemma ArrayRoundTrip(t: Tree, arr: seq<Option<Key>>)
    requires IsBst(t) && 1 <= Size(t) <= ARRAY_SLOTS && |arr| == ARRAY_SLOTS
    requires Size(t) < ARRAY_SLOTS ==> arr[Size(t)].None?
    ensures var flat := BstreeToArray(t);
      var rebuilt := ArrayToBSTree(flat.1, WriteKeys(arr, flat.0)).0;
      && InOrder(rebuilt) == InOrder(t)
      && Elems(rebuilt) == Elems(t)
      && IsBst(rebuilt)
      && Balanced(rebuilt)
  {
    var flat := BstreeToArray(t);
    var slots := WriteKeys(arr, flat.0);
    WriteKeysReadBack(arr, flat.0);
    var rebuilt := ArrayToBSTree(flat.1, slots).0;
    SameInOrderSameElems(rebuilt, t);
  }

  /** arrayToBSTree's scan of such an array finds exactly the written keys. */
  lemma WriteKeysReadBack(arr: seq<Option<Key>>, ks: seq<Key>)
    requires 1 <= |ks| <= ARRAY_SLOTS && |arr| == ARRAY_SLOTS
    requires |ks| < ARRAY_SLOTS ==> arr[|ks|].None?
    ensures var slots := WriteKeys(arr, ks);
      var n := LeadingCount(slots, 0);
      n == |ks| && seq(n, i requires 0 <= i < n => slots[i].value) == ks
  {
    var slots := WriteKeys(arr, ks);
    assert forall j :: 0 <= j < |ks| ==> slots[j] == slots[..|ks|][j];
    assert |ks| < ARRAY_SLOTS ==> slots[|ks|] == slots[|ks|..][0];
    var n := LeadingCount(slots, 0);
    assert n == |ks|;
    var xs := seq(n, i requires 0 <= i < n => slots[i].value);
    forall j | 0 <= j < n
      ensures xs[j] == ks[j]
    {
      assert slots[j] == slots[..|ks|][j];
    }
  }

  /** Without that null slot the rebuild picks up whatever follows the keys:
      the one-key tree 1 written over [null, 2, null, ...] comes back as the
      keys 1 and 2. */
  lemma ArrayRoundTripStaleSlot()
    ensures var arr := [None, Some(2)] + seq(ARRAY_SLOTS - 2, _ => None);
      var flat := BstreeToArray(Node(Leaf, 1, Leaf));
      InOrder(ArrayToBSTree(flat.1, WriteKeys(arr, flat.0)).0) == [1, 2]
  {
    var arr: seq<Option<Key>> := [None, Some(2)] + seq(ARRAY_SLOTS - 2, _ => None);
    var flat := BstreeToArray(Node(Leaf, 1, Leaf));
    assert flat.0 == [1];
    var slots := WriteKeys(arr, flat.0);
    assert slots[0] == Some(1) && slots[1] == Some(2) && slots[2] == None;
    assert LeadingCount(slots, 0) == 2;
    var xs := seq(2, i requires 0 <= i < 2 => slots[i].value);
    assert xs == [1, 2];
  }
}
