/** The ordered index of dirty buffer heads that nvfuse_buffer_cache.c keeps in a
    red-black tree: search, insertion, erasure and in-order iteration. */
module RbIndex {
  import opened RbShape
  import opened RbMemory
  import opened RbTree

  const TWO_63 := 0x8000_0000_0000_0000
  const TWO_64 := 0x1_0000_0000_0000_0000

  /** The u64 difference of two u64 values, read as an s64. */
  function SignedDifference(a: int, b: int): (d: int)
    requires 0 <= a < TWO_64 && 0 <= b < TWO_64
    ensures -TWO_63 <= d < TWO_63 && (d - (a - b)) % TWO_64 == 0
  {
    var u := if a >= b then a - b else a - b + TWO_64;
    if u < TWO_63 then u else u - TWO_64
  }

  /** Comparing by signed difference is comparing exactly when the keys are less
      than 2^63 apart (or exactly so, in one direction). */
  lemma DifferenceOrders(a: int, b: int)
    requires 0 <= a < TWO_64 && 0 <= b < TWO_64
    ensures (SignedDifference(a, b) < 0 <==> a < b) && (SignedDifference(a, b) > 0 <==> a > b)
      <==> -TWO_63 <= a - b < TWO_63
    ensures SignedDifference(a, b) == 0 <==> a == b
  {
  }

  /** Keys that signed differences compare correctly, both ways. */
  ghost predicate Near(a: int, b: int) {
    -TWO_63 < a - b < TWO_63
  }

  ghost predicate NearAll(s: seq<Node>, k: int) {
    forall x :: x in s ==> Near(k, x.key)
  }

  ghost predicate Close(s: seq<Node>) {
    forall x :: x in s ==> NearAll(s, x.key)
  }

  lemma CloseInsert(a: seq<Node>, x: Node, b: seq<Node>)
    requires Close(a + b)
    ensures Close(a + [x] + b) <==> NearAll(a + b, x.key)
  {
    var s, t := a + b, a + [x] + b;
    assert x in t;
    assert forall y :: y in t <==> y in s || y == x;
  }

  ghost predicate Ascending(s: seq<Node>) {
    forall i, j :: 0 <= i < j < |s| ==> s[i].key < s[j].key
  }

  ghost predicate AllBelow(s: seq<Node>, k: int) {
    forall x :: x in s ==> x.key < k
  }

  ghost predicate AllAbove(k: int, s: seq<Node>) {
    forall x :: x in s ==> k < x.key
  }

  lemma AscendingAround(s: seq<Node>, a: seq<Node>, x: Node, b: seq<Node>)
    requires s == a + [x] + b && Ascending(s)
    ensures AllBelow(a, x.key) && AllAbove(x.key, b)
  {
    assert s[|a|] == x;
    forall y | y in a ensures y.key < x.key {
      var i :| 0 <= i < |a| && a[i] == y;
      assert s[i] == y;
    }
    forall y | y in b ensures x.key < y.key {
      var i :| 0 <= i < |b| && b[i] == y;
      assert s[|a| + 1 + i] == y;
    }
  }

  lemma AscendingInsert(a: seq<Node>, x: Node, b: seq<Node>)
    requires Ascending(a + b) && AllBelow(a, x.key) && AllAbove(x.key, b)
    ensures Ascending(a + [x] + b)
  {
    var s, s' := a + b, a + [x] + b;
    forall i, j | 0 <= i < j < |s'| ensures s'[i].key < s'[j].key {
      assert i < |a| ==> s'[i] == s[i] && s'[i] in a;
      assert i > |a| ==> s'[i] == s[i - 1];
      assert j < |a| ==> s'[j] == s[j];
      assert j > |a| ==> s'[j] == s[j - 1] && s'[j] in b;
    }
  }

  lemma AscendingErase(s: seq<Node>, i: int)
    requires Ascending(s) && Close(s) && 0 <= i < |s|
    ensures Ascending(s[..i] + s[i + 1..]) && Close(s[..i] + s[i + 1..])
  {
    var s' := s[..i] + s[i + 1..];
    assert forall j :: 0 <= j < |s'| ==> s'[j] == s[if j < i then j else j + 1];
    assert forall x :: x in s' ==> x in s;
  }

  /** The comparison of `key` with the root of the tree is right. */
  ghost predicate RootRight(key: int, tree: Tree<Node>) {
    tree.Leaf? || -TWO_63 <= key - tree.item.key < TWO_63
  }

  /** Where a search for `key` in `tree` may stand: if the first comparison is right, the key lies between what
      is before and what is behind; if it is wrong, on the wrong side of the root. */
  ghost predicate Bracketed(key: int, tree: Tree<Node>, c: Ctx<Node>, t: Tree<Node>) {
    if c.Top? then t == tree
    else tree.Branch? && var r := tree.item;
      && (r in Before(c) || r in After(c))
      && if RootRight(key, tree) then AllBelow(Before(c), key) && AllAbove(key, After(c))
         else (r in After(c) && r.key < key) || (r in Before(c) && key < r.key)
  }

  /** The sequence around a node. */
  lemma Surroundings(c: Ctx<Node>, t: Tree<Node>)
    requires t.Branch? && Ascending(Whole(c, t))
    ensures var x, cl, cr := t.item, InLeft(t.item, t.color, t.right, c), InRight(t.left, t.item, t.color, c);
      var a, b := Before(c) + Inorder(t.left), Inorder(t.right) + After(c);
      && Whole(c, t) == a + [x] + b && AllBelow(a, x.key) && AllAbove(x.key, b)
      && Before(cl) == Before(c) && After(cl) == [x] + b && Before(cr) == a + [x] && After(cr) == After(c)
  {
    hide Ascending, AllBelow, AllAbove;
    var x := t.item;
    var a, b := Before(c) + Inorder(t.left), Inorder(t.right) + After(c);
    Regrouped(Before(c), Inorder(t.left), [x], Inorder(t.right), After(c));
    hide Inorder, Before, After;
    AscendingAround(Whole(c, t), a, x, b);
  }

  lemma Regrouped(p: seq<Node>, l: seq<Node>, x: seq<Node>, r: seq<Node>, q: seq<Node>)
    ensures p + (l + x + r) + q == (p + l) + x + (r + q)
    ensures (x + r) + q == x + (r + q) && p + (l + x) == (p + l) + x
  {
  }

  lemma NearRoot(key: int, tree: Tree<Node>)
    requires NearAll(Inorder(tree), key)
    ensures RootRight(key, tree)
  {
    if tree.Branch? {
      assert tree.item in Inorder(tree);
      assert Near(key, tree.item.key);
    }
  }

  /** Behind a right first comparison all others are right. */
  lemma StillRight(key: Key, tree: Tree<Node>, c: Ctx<Node>, t: Tree<Node>)
    requires t.Branch? && Ascending(Whole(c, t)) && Close(Whole(c, t)) && Bracketed(key, tree, c, t) && RootRight(key, tree)
    ensures -TWO_63 <= key - t.item.key < TWO_63
  {
    hide Ascending, Inorder, Before, After;
    Surroundings(c, t);
    if !c.Top? {
      var r, x := tree.item, t.item;
      assert r in Whole(c, t) && x in Whole(c, t);
      assert Near(x.key, r.key);
      assert r in Before(c) ==> r.key < x.key && r.key < key;
      assert r in After(c) ==> x.key < r.key && key < r.key;
    }
  }

  lemma BracketStep(key: Key, tree: Tree<Node>, c: Ctx<Node>, t: Tree<Node>)
    requires t.Branch? && Ascending(Whole(c, t)) && Close(Whole(c, t)) && Bracketed(key, tree, c, t)
    ensures var d := SignedDifference(key, t.item.key);
      && (d < 0 ==> Bracketed(key, tree, InLeft(t.item, t.color, t.right, c), t.left))
      && (d > 0 ==> Bracketed(key, tree, InRight(t.left, t.item, t.color, c), t.right))
      && (d == 0 ==> t.item.key == key)
  {
    hide Ascending, Inorder, Before, After, Close, Whole;
    Surroundings(c, t);
    DifferenceOrders(key, t.item.key);
    if c.Top? { NothingAtTop(); }
    if RootRight(key, tree) {
      StillRight(key, tree, c, t);
    }
  }

  /** A search that ends in an empty slot proves the key absent. */
  lemma KeyAbsent(key: Key, tree: Tree<Node>, c: Ctx<Node>)
    requires Bracketed(key, tree, c, Leaf) && Ascending(Whole(c, Leaf)) && Close(Whole(c, Leaf))
    ensures forall x :: x in Whole(c, Leaf) ==> x.key != key
  {
    assert Whole(c, Leaf) == Before(c) + After(c);
    hide Ascending, Before, After, Whole;
    if !c.Top? {
      var r := tree.item;
      assert r in Whole(c, Leaf);
      forall x | x in Whole(c, Leaf) ensures x.key != key {
        assert Near(x.key, r.key);
      }
    } else {
      NothingAtTop();
    }
  }

  lemma NothingAtTop()
    ensures Before<Node>(Top) == [] && After<Node>(Top) == []
  {
  }

  /** The new node makes an ascending sequence exactly when the first comparison was right. */
  lemma BracketInsert(x: Node, tree: Tree<Node>, c: Ctx<Node>)
    requires Bracketed(x.key, tree, c, Leaf) && Ascending(Before(c) + After(c))
    ensures Ascending(Before(c) + [x] + After(c)) <==> RootRight(x.key, tree)
  {
    hide Before, After;
    if c.Top? { NothingAtTop(); }
    if RootRight(x.key, tree) {
      AscendingInsert(Before(c), x, After(c));
    } else {
      var s := Before(c) + [x] + After(c);
      if Ascending(s) {
        AscendingAround(s, Before(c), x, After(c));
      }
    }
  }

  class DirtyIndex {
    const root: Root
    ghost var tree: Tree<Node>

    ghost predicate Valid()
      reads this, root, root.nodes
    {
      root.At(Top, tree) && RedBlack(tree) && Ascending(Inorder(tree)) && Close(Inorder(tree))
    }

    ghost function Contents(): seq<Node>
      reads this
    {
      Inorder(tree)
    }

    constructor ()
      ensures Valid() && Contents() == [] && fresh(root) && root.nodes == {}
    {
      root := new Root();
      tree := Leaf;
      new;
      assert Balanced(tree, 0);
    }

    /** A position of the zipper that a search for `key` comes to. */
    ghost predicate Searching(key: int, c: Ctx<Node>, t: Tree<Node>)
      reads this, root, root.nodes
    {
      root.At(c, t) && Bracketed(key, tree, c, t) && Whole(c, t) == Contents() && Plug(c, t) == tree
    }

    lemma FromTheTop(key: int)
      requires Valid()
      ensures Searching(key, Top, tree) && root.top == NodeOf(tree)
    {
      hide root.At;
      hide Inorder, Close, Ascending;
      root.Around(Top, tree);
    }

    /** One comparison of a search. */
    lemma Compare(key: Key, c: Ctx<Node>, t: Tree<Node>)
      requires Valid() && Searching(key, c, t) && t.Branch?
      ensures var d := SignedDifference(key, t.item.key);
        && (d < 0 ==> Searching(key, InLeft(t.item, t.color, t.right, c), t.left))
        && (d > 0 ==> Searching(key, InRight(t.left, t.item, t.color, c), t.right))
        && (d == 0 ==> t.item.key == key && t.item in Contents())
    {
      hide root.At, Inorder, Before, After, Ascending, Close, Bracketed, SignedDifference, Whole;
      var cl, cr := InLeft(t.item, t.color, t.right, c), InRight(t.left, t.item, t.color, c);
      root.RefocusAt(cl, t.left);
      root.RefocusAt(cr, t.right);
      WholeWrap(cl, t.left);
      WholeWrap(cr, t.right);
      WholeAtItem(c, t);
      BracketStep(key, tree, c, t);
    }

    /** nvfuse_rbnode_search. */
    method Search(bno: Key) returns (found: Node?)
      requires Valid()
      ensures found != null ==> found in Contents() && found.key == bno
      ensures found == null ==> forall x :: x in Contents() ==> x.key != bno
    {
      hide root.At;
      hide Inorder, Before, After, Close, Ascending, SignedDifference, Plug, Whole, Bracketed;
      var node := root.top;
      ghost var c, t := Top, tree;
      FromTheTop(bno);
      while node != null
        invariant Searching(bno, c, t) && NodeOf(t) == node
        decreases t
      {
        root.Around(c, t);
        var result := SignedDifference(bno, node.key);
        Compare(bno, c, t);
        if result < 0 {
          node := node.left;
          c, t := InLeft(t.item, t.color, t.right, c), t.left;
        } else if result > 0 {
          node := node.right;
          c, t := InRight(t.left, t.item, t.color, c), t.right;
        } else {
          return node;
        }
      }
      KeyAbsent(bno, tree, c);
      return null;
    }

    /** nvfuse_rbnode_insert_bh: the slot for a new key, or the node that has it already. */
    method FindSlot(key: Key) returns (present: bool, parent: Node?, onLeft: bool, ghost c: Ctx<Node>)
      requires Valid()
      ensures present <==> exists x :: x in Contents() && x.key == key
      ensures !present ==> Searching(key, c, Leaf)
      ensures !present ==> parent == HoleParent(c) && (!c.Top? ==> onLeft == c.InLeft?)
    {
      hide root.At;
      hide Inorder, Before, After, Close, Ascending, SignedDifference, Plug, Whole, Bracketed;
      var node := root.top;
      parent, onLeft, present := null, false, false;
      ghost var t := tree;
      c := Top;
      FromTheTop(key);
      while node != null
        invariant Searching(key, c, t) && NodeOf(t) == node
        invariant parent == HoleParent(c) && (!c.Top? ==> onLeft == c.InLeft?)
        decreases t
      {
        root.Around(c, t);
        var result := SignedDifference(key, node.key);
        Compare(key, c, t);
        parent := node;
        if result < 0 {
          node, onLeft := node.left, true;
          c, t := InLeft(t.item, t.color, t.right, c), t.left;
        } else if result > 0 {
          node, onLeft := node.right, false;
          c, t := InRight(t.left, t.item, t.color, c), t.right;
        } else {
          present := true;
          return;
        }
      }
      KeyAbsent(key, tree, c);
    }

    /** nvfuse_rbnode_insert_bh. The sequence stays ascending exactly when the comparison with the root
        is right; the keys stay less than 2^63 apart exactly when the new one is that close to all others. */
    method Insert(node: Node) returns (inserted: bool)
      requires Valid() && node !in root.nodes
      modifies this, root, root.nodes, node
      ensures inserted <==> forall x :: x in old(Contents()) ==> x.key != node.key
      ensures !inserted ==> Valid() && Contents() == old(Contents()) && root.nodes == old(root.nodes)
      ensures inserted ==> root.nodes == old(root.nodes) + {node} && root.At(Top, tree) && RedBlack(tree)
      ensures inserted ==> (Ascending(Contents()) <==> RootRight(node.key, old(tree)))
      ensures inserted ==> (Close(Contents()) <==> NearAll(old(Contents()), node.key)) && (Close(Contents()) ==> Valid())
      ensures inserted ==>
        exists i :: 0 <= i <= |old(Contents())| && Contents() == old(Contents())[..i] + [node] + old(Contents())[i..]
    {
      hide root.At;
      hide Close, Ascending, NearAll, Bracketed, RootRight;
      var present, parent, onLeft;
      ghost var c;
      present, parent, onLeft, c := FindSlot(node.key);
      inserted := !present;
      if inserted {
        ghost var s, i, tree0 := Contents(), |Before(c)|, tree;
        ghost var h := UnplugBalanced(c, Leaf);
        root.LinkNode(node, parent, onLeft, c);
        tree := root.InsertColor(node, c, Branch(Leaf, node, Red, Leaf), h);
        assert s == Before(c) + After(c);
        CloseInsert(Before(c), node, After(c));
        BracketInsert(node, tree0, c);
        if NearAll(s, node.key) { NearRoot(node.key, tree0); }
        assert Contents() == s[..i] + [node] + s[i..];
      }
    }

    /** rb_erase, as nvfuse_remove_bhs_in_bc uses it. */
    method Erase(node: Node)
      requires Valid() && node in Contents()
      modifies this, root, root.nodes
      ensures Valid() && root.nodes == old(root.nodes) - {node}
      ensures exists i ::
        0 <= i < |old(Contents())| && old(Contents())[i] == node
        && Contents() == old(Contents())[..i] + old(Contents())[i + 1..]
    {
      hide root.At, Inorder, Before, After;
      ghost var s := Contents();
      ItemsAreInorder(tree, node);
      ghost var c, t := Focus(Top, tree, node);
      root.PlugAt(c, t);
      PlugInorder(c, t);
      WholeAtItem(c, t);
      tree := root.EraseAt(node, c, t);
      ghost var i := |Before(c)| + |Inorder(t.left)|;
      AscendingErase(s, i);
      assert s[i] == node && Contents() == s[..i] + s[i + 1..];
    }

    // --------------------------------------------------------------- iteration

    /** rb_first. */
    method First() returns (n: Node?)
      requires Valid()
      ensures n == if Contents() == [] then null else Contents()[0]
    {
      hide root.At;
      hide Close, Ascending;
      root.Around(Top, tree);
      if root.top == null {
        return null;
      }
      var x: Node := root.top;
      ghost var c, t := Top, tree;
      while x.left != null
        invariant root.At(c, t) && t.Branch? && t.item == x && x.left == NodeOf(t.left)
        invariant Before(c) == [] && Whole(c, t) == Contents()
        decreases t
      {
        x := x.left;
        c, t := InLeft(t.item, t.color, t.right, c), t.left;
        root.RefocusAt(c, t);
        WholeWrap(c, t);
        root.Around(c, t);
      }
      WholeAtItem(c, t);
      return x;
    }

    /** rb_last. */
    method Last() returns (n: Node?)
      requires Valid()
      ensures n == if Contents() == [] then null else Contents()[|Contents()| - 1]
    {
      hide root.At;
      hide Close, Ascending;
      root.Around(Top, tree);
      if root.top == null {
        return null;
      }
      var x: Node := root.top;
      ghost var c, t := Top, tree;
      while x.right != null
        invariant root.At(c, t) && t.Branch? && t.item == x && x.right == NodeOf(t.right)
        invariant After(c) == [] && Whole(c, t) == Contents()
        decreases t
      {
        x := x.right;
        c, t := InRight(t.left, t.item, t.color, c), t.right;
        root.RefocusAt(c, t);
        WholeWrap(c, t);
        root.Around(c, t);
      }
      WholeAtItem(c, t);
      assert Contents()[|Before(c)| + |Inorder(t.left)| + 1..] == [];
      return x;
    }

    /** A node of the tree is not its own parent, which rb_next takes as the mark of
        a node outside any tree. */
    lemma NotCleared(c: Ctx<Node>, t: Tree<Node>)
      requires root.At(c, t) && t.Branch?
      ensures t.item.parent != t.item && t.item.parent == HoleParent(c)
    {
      assert t.item in Items(t);
      assert !c.Top? ==> c.item in CtxItems(c);
    }

    /** rb_next. */
    method Next(node: Node, ghost i: nat) returns (next: Node?)
      requires Valid() && i < |Contents()| && Contents()[i] == node
      ensures next == if i + 1 < |Contents()| then Contents()[i + 1] else null
    {
      hide root.At;
      hide Close, Ascending;
      ghost var c, t := FocusIndex(i);
      NotCleared(c, t);
      root.Around(c, t);
      if node.parent == node {
        return null;
      }
      if node.right != null {
        ghost var c1, t1;
        next, c1, t1 := root.Successor(node, c, t);
        RenamedSpine(c1, t1, node, 0);
        WholeAtItem(c1, t1);
        return;
      }
      var child := node;
      next := node.parent;
      while next != null && child == next.right
        invariant root.At(c, t) && t.Branch? && t.item == child && next == HoleParent(c)
        invariant Whole(c, t) == Contents() && |Before(c)| + |Inorder(t)| == i + 1
        decreases Depth(c)
      {
        root.Around(c, t);
        root.RefocusAt(c, t);
        WholeWrap(c, t);
        c, t := c.up, Wrap(c, t);
        root.Around(c, t);
        child := next;
        next := child.parent;
      }
      root.Around(c, t);
    }

    /** The last node of a subtree: down the right children. */
    method Rightmost(start: Node, ghost c0: Ctx<Node>, ghost t0: Tree<Node>, ghost s: seq<Node>, ghost n: nat) returns (x: Node)
      requires root.At(c0, t0) && t0.Branch? && t0.item == start
      requires s == Whole(c0, t0) && n == |Before(c0)| + |Inorder(t0)| && 0 < n <= |s|
      ensures s[n - 1] == x
    {
      hide root.At;
      x := start;
      ghost var c, t := c0, t0;
      root.Around(c, t);
      while x.right != null
        invariant root.At(c, t) && t.Branch? && t.item == x && x.right == NodeOf(t.right)
        invariant Whole(c, t) == s && |Before(c)| + |Inorder(t)| == n
        decreases t
      {
        hide Whole;
        x := x.right;
        c, t := InRight(t.left, t.item, t.color, c), t.right;
        root.RefocusAt(c, t);
        WholeWrap(c, t);
        root.Around(c, t);
      }
      hide Inorder, Before, After, Whole;
      WholeAtItem(c, t);
      assert t.right.Leaf?;
      EmptyInorder(t.right);
    }

    /** rb_prev. */
    method Prev(node: Node, ghost i: nat) returns (prev: Node?)
      requires Valid() && i < |Contents()| && Contents()[i] == node
      ensures prev == if 0 < i then Contents()[i - 1] else null
    {
      hide root.At;
      hide Close, Ascending;
      ghost var c, t := FocusIndex(i);
      NotCleared(c, t);
      root.Around(c, t);
      if node.parent == node {
        return null;
      }
      if node.left != null {
        c, t := InLeft(t.item, t.color, t.right, c), t.left;
        root.RefocusAt(c, t);
        WholeWrap(c, t);
        prev := Rightmost(node.left, c, t, Contents(), i);
        return;
      }
      var child := node;
      prev := node.parent;
      while prev != null && child == prev.left
        invariant root.At(c, t) && t.Branch? && t.item == child && prev == HoleParent(c)
        invariant Whole(c, t) == Contents() && |Before(c)| == i
        decreases Depth(c)
      {
        root.Around(c, t);
        root.RefocusAt(c, t);
        WholeWrap(c, t);
        c, t := c.up, Wrap(c, t);
        root.Around(c, t);
        child := prev;
        prev := child.parent;
      }
      root.Around(c, t);
    }

    /** Walking from rb_first by rb_next visits every node once, in ascending order. */
    method Walk() returns (visited: seq<Node>)
      requires Valid()
      ensures visited == Contents() && Ascending(visited)
    {
      hide root.At;
      hide Close, Ascending;
      visited := [];
      var n := First();
      while n != null
        invariant |visited| <= |Contents()| && visited == Contents()[..|visited|]
        invariant n == if |visited| < |Contents()| then Contents()[|visited|] else null
        decreases |Contents()| - |visited|
      {
        var next := Next(n, |visited|);
        visited := visited + [n];
        n := next;
      }
    }

    /** Brings the i-th node of the in-order sequence into focus. */
    lemma FocusIndex(i: nat) returns (c: Ctx<Node>, t: Tree<Node>)
      requires Valid() && i < |Contents()|
      ensures root.At(c, t) && t.Branch? && t.item == Contents()[i]
      ensures Whole(c, t) == Contents() && i == |Before(c)| + |Inorder(t.left)|
    {
      DistinctInorder(tree);
      hide root.At;
      hide Distinct;
      var s := Contents();
      ItemsAreInorder(tree, s[i]);
      c, t := Focus(Top, tree, s[i]);
      root.PlugAt(c, t);
      PlugInorder(c, t);
      WholeAtItem(c, t);
    }
  }
}
