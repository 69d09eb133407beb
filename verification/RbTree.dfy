/** The red-black tree operations of rbtree.c on heap nodes. */
module RbTree {
  import opened RbShape
  import opened RbMemory

  class Root {
    var top: Node?
    ghost var nodes: set<Node>

    /** RB_ROOT: the empty tree. */
    constructor ()
      ensures nodes == {} && At(Top, Leaf)
    {
      top, nodes := null, {};
    }

    ghost function Snapshot(): Memory
      reads this, nodes
    {
      map x | x in nodes :: Link(x.left, x.right, x.parent, x.color)
    }

    /** The heap below this root is the tree Plug(c, t). */
    ghost predicate At(c: Ctx<Node>, t: Tree<Node>)
      reads this, nodes
    {
      Pictures(Snapshot(), c, t) && top == TopNode(c, NodeOf(t))
    }

    lemma RefocusAt(c: Ctx<Node>, t: Tree<Node>)
      requires !c.Top?
      ensures At(c, t) <==> At(c.up, Wrap(c, t))
    {
      Refocus(Snapshot(), c, t);
    }

    /** The fields of a focused node and of the node above the hole. */
    lemma Around(c: Ctx<Node>, t: Tree<Node>)
      requires At(c, t)
      ensures t.Branch? ==> var x := t.item;
        x in nodes && x.left == NodeOf(t.left) && x.right == NodeOf(t.right)
        && x.parent == HoleParent(c) && x.color == t.color
      ensures t.Branch? && t.left.Branch? ==> t.left.item in nodes && t.left.item.color == t.left.color
      ensures t.Branch? && t.right.Branch? ==> t.right.item in nodes && t.right.item.color == t.right.color
      ensures !c.Top? ==> var y := c.item;
        y in nodes && y.color == c.color && y.parent == HoleParent(c.up)
        && y.left == (if c.InLeft? then NodeOf(t) else NodeOf(c.left))
        && y.right == (if c.InLeft? then NodeOf(c.right) else NodeOf(t))
        && (y.left != y.right || y.left == null)
      ensures c.Top? ==> top == NodeOf(t)
    {
      assert t.Branch? ==> t.item in Items(t) && Linked(t.left, t.item, Snapshot()) && Linked(t.right, t.item, Snapshot());
      assert c.InLeft? && c.right.Branch? ==> c.right.item in Items(c.right);
      assert c.InRight? && c.left.Branch? ==> c.left.item in Items(c.left);
    }

    lemma {:induction false} PlugAt(c: Ctx<Node>, t: Tree<Node>)
      ensures At(c, t) <==> At(Top, Plug(c, t))
      ensures t.Branch? ==> Plug(c, t).Branch?
      decreases c
    {
      if !c.Top? {
        RefocusAt(c, t);
        PlugAt(c.up, Wrap(c, t));
      }
    }

    method RotateLeft(node: Node, ghost c: Ctx<Node>, ghost t: Tree<Node>)
      requires At(c, t) && t.Branch? && t.item == node && t.right.Branch?
      modifies this`top, nodes
      ensures At(c, RotatedLeft(t))
    {
      ghost var m := Snapshot();
      LeftRotatableAt(m, c, t);
      RotateLeftLinks(node);
      LeftRotationPictures(m, Snapshot(), c, t);
    }

    method RotateLeftLinks(node: Node)
      requires LeftRotatable(Snapshot(), node)
      modifies this`top, nodes
      ensures LeftRotated(old(Snapshot()), Snapshot(), node)
      ensures top == if old(node.parent) == null then old(node.right) else old(top)
    {
      var right := node.right;
      var parent := node.parent;
      node.right := right.left;
      if right.left != null {
        right.left.parent := node;
      }
      right.left := node;
      right.parent := parent;
      if parent != null {
        if node == parent.left {
          parent.left := right;
        } else {
          parent.right := right;
        }
      } else {
        top := right;
      }
      node.parent := right;
    }

    method RotateRight(node: Node, ghost c: Ctx<Node>, ghost t: Tree<Node>)
      requires At(c, t) && t.Branch? && t.item == node && t.left.Branch?
      modifies this`top, nodes
      ensures At(c, RotatedRight(t))
    {
      ghost var m := Snapshot();
      RightRotatableAt(m, c, t);
      RotateRightLinks(node);
      RightRotationPictures(m, Snapshot(), c, t);
    }

    method RotateRightLinks(node: Node)
      requires RightRotatable(Snapshot(), node)
      modifies this`top, nodes
      ensures RightRotated(old(Snapshot()), Snapshot(), node)
      ensures top == if old(node.parent) == null then old(node.left) else old(top)
    {
      var left := node.left;
      var parent := node.parent;
      node.left := left.right;
      if left.right != null {
        left.right.parent := node;
      }
      left.right := node;
      left.parent := parent;
      if parent != null {
        if node == parent.right {
          parent.right := left;
        } else {
          parent.left := left;
        }
      } else {
        top := left;
      }
      node.parent := left;
    }

    method Paint(x: Node, col: Color, ghost c: Ctx<Node>, ghost t: Tree<Node>)
      requires At(c, t) && t.Branch? && t.item == x
      modifies x`color
      ensures At(c, Painted(t, col))
    {
      ghost var m := Snapshot();
      PaintPictures(m, c, t, col);
      x.color := col;
      assert Snapshot() == m[x := m[x].(color := col)];
    }

    /** rb_set_color on the node above the hole. */
    method PaintAbove(x: Node, col: Color, ghost c: Ctx<Node>, ghost t: Tree<Node>)
      requires At(c, t) && !c.Top? && c.item == x
      modifies x`color
      ensures At(PaintedAbove(c, col), t)
    {
      hide At;
      RefocusAt(c, t);
      Paint(x, col, c.up, Wrap(c, t));
      RefocusAt(PaintedAbove(c, col), t);
    }

    /** The sibling of the hole, seen as the focus. */
    lemma TurnRight(c: Ctx<Node>, t: Tree<Node>)
      requires c.InLeft?
      ensures At(c, t) <==> At(InRight(left := t, item := c.item, color := c.color, up := c.up), c.right)
    {
      RefocusAt(c, t);
      RefocusAt(InRight(left := t, item := c.item, color := c.color, up := c.up), c.right);
    }

    /** rb_set_color on the right sibling of the hole. */
    method PaintRight(x: Node, col: Color, ghost c: Ctx<Node>, ghost t: Tree<Node>)
      requires At(c, t) && c.InLeft? && c.right.Branch? && c.right.item == x
      modifies x`color
      ensures At(c.(right := Painted(c.right, col)), t)
    {
      hide At;
      TurnRight(c, t);
      Paint(x, col, InRight(left := t, item := c.item, color := c.color, up := c.up), c.right);
      TurnRight(c.(right := Painted(c.right, col)), t);
    }

    /** The sibling of the hole, seen as the focus. */
    lemma TurnLeft(c: Ctx<Node>, t: Tree<Node>)
      requires c.InRight?
      ensures At(c, t) <==> At(InLeft(right := t, item := c.item, color := c.color, up := c.up), c.left)
    {
      RefocusAt(c, t);
      RefocusAt(InLeft(right := t, item := c.item, color := c.color, up := c.up), c.left);
    }

    /** rb_set_color on the left sibling of the hole. */
    method PaintLeft(x: Node, col: Color, ghost c: Ctx<Node>, ghost t: Tree<Node>)
      requires At(c, t) && c.InRight? && c.left.Branch? && c.left.item == x
      modifies x`color
      ensures At(c.(left := Painted(c.left, col)), t)
    {
      hide At;
      TurnLeft(c, t);
      Paint(x, col, InLeft(right := t, item := c.item, color := c.color, up := c.up), c.left);
      TurnLeft(c.(left := Painted(c.left, col)), t);
    }

    // ------------------------------------------------------------- insertion

    /** rb_link_node, link by link. */
    method LinkLinks(node: Node, parent: Node?, onLeft: bool)
      requires node !in nodes && (parent != null ==> parent in nodes)
      modifies this, nodes, node
      ensures nodes == old(nodes) + {node} && top == if parent == null then node else old(top)
      ensures var m, m' := old(Snapshot()), Snapshot();
        && m'[node] == Link(null, null, parent, Red)
        && (parent != null ==> m'[parent] == if onLeft then m[parent].(left := node) else m[parent].(right := node))
        && forall x :: x in m && x != parent ==> m'[x] == m[x]
    {
      node.parent, node.color := parent, Red;
      node.left, node.right := null, null;
      if parent == null {
        top := node;
      } else if onLeft {
        parent.left := node;
      } else {
        parent.right := node;
      }
      nodes := nodes + {node};
    }

    /** rb_link_node: a red leaf in an empty child slot. */
    method LinkNode(node: Node, parent: Node?, onLeft: bool, ghost c: Ctx<Node>)
      requires At(c, Leaf) && node !in nodes
      requires parent == HoleParent(c) && (!c.Top? ==> onLeft == c.InLeft?)
      modifies this, nodes, node
      ensures nodes == old(nodes) + {node}
      ensures At(c, Branch(Leaf, node, Red, Leaf))
    {
      ghost var m := Snapshot();
      assert !c.Top? ==> c.item in CtxItems(c);
      LinkLinks(node, parent, onLeft);
      LinkPictures(m, Snapshot(), c, node);
    }

    /** The node being repaired is red, and nothing else is wrong. */
    ghost predicate Inserting(node: Node, c: Ctx<Node>, t: Tree<Node>, h: int)
      reads this, nodes
    {
      At(c, t) && t.Branch? && t.item == node && t.color == Red && Balanced(t, h) && Fits(c, h)
    }

    /** rb_insert_color, parent a left child, uncle red: push the red node up. */
    method RecolorLeft(parent: Node, gparent: Node, uncle: Node, ghost c: Ctx<Node>, ghost p: Tree<Node>)
      requires At(c, p) && c.InLeft? && p.Branch? && c.right.Branch?
      requires parent == p.item && gparent == c.item && uncle == c.right.item
      modifies nodes
      ensures At(c.up, LeftRecolor(c, p))
    {
      hide At;
      Around(c, p);
      TurnRight(c, p);
      Around(InRight(left := p, item := c.item, color := c.color, up := c.up), c.right);
      PaintRight(uncle, Black, c, p);
      ghost var c' := c.(right := Painted(c.right, Black));
      Paint(parent, Black, c', p);
      PaintAbove(gparent, Red, c', Painted(p, Black));
      RefocusAt(PaintedAbove(c', Red), Painted(p, Black));
    }

    /** rb_insert_color, parent a right child, uncle red: push the red node up. */
    method RecolorRight(parent: Node, gparent: Node, uncle: Node, ghost c: Ctx<Node>, ghost p: Tree<Node>)
      requires At(c, p) && c.InRight? && p.Branch? && c.left.Branch?
      requires parent == p.item && gparent == c.item && uncle == c.left.item
      modifies nodes
      ensures At(c.up, RightRecolor(c, p))
    {
      hide At;
      Around(c, p);
      TurnLeft(c, p);
      Around(InLeft(right := p, item := c.item, color := c.color, up := c.up), c.left);
      PaintLeft(uncle, Black, c, p);
      ghost var c' := c.(left := Painted(c.left, Black));
      Paint(parent, Black, c', p);
      PaintAbove(gparent, Red, c', Painted(p, Black));
      RefocusAt(PaintedAbove(c', Red), Painted(p, Black));
    }

    /** rb_insert_color, parent a left child, uncle black: rotate the red pair apart. */
    method RotateApartLeft(node: Node, parent: Node, gparent: Node, ghost c: Ctx<Node>, ghost t: Tree<Node>)
      returns (node': Node, ghost w: Tree<Node>)
      requires At(c, t) && t.Branch? && t.item == node
      requires !c.Top? && c.item == parent && c.up.InLeft? && c.up.item == gparent
      modifies this`top, nodes
      ensures w.Branch? && w.left.Branch? && w.right.Branch? && At(c.up.up, w) && w.left.item == node'
      ensures w == LeftRepair(c, t)
    {
      hide At;
      ghost var p := Wrap(c, t);
      Around(c, t);
      RefocusAt(c, t);
      node' := node;
      var parent' := parent;
      if parent.right == node {
        RotateLeft(parent, c.up, p);
        p := RotatedLeft(p);
        parent', node' := node, parent;
      }
      Around(c.up, p);
      Paint(parent', Black, c.up, p);
      p := Painted(p, Black);
      RefocusAt(c.up, p);
      w := Wrap(c.up, p);
      Around(c.up.up, w);
      Paint(gparent, Red, c.up.up, w);
      RotateRight(gparent, c.up.up, Painted(w, Red));
      w := RotatedRight(Painted(w, Red));
    }

    /** One round of rb_insert_color when the parent is a left child. */
    method RepairLeft(node: Node, ghost c: Ctx<Node>, ghost t: Tree<Node>, ghost h: int)
      returns (node': Node, ghost c': Ctx<Node>, ghost t': Tree<Node>, ghost h': int)
      requires Inserting(node, c, t, h) && !c.Top? && c.color == Red && c.up.InLeft?
      modifies this`top, nodes
      ensures Inserting(node', c', t', h') && Depth(c') < Depth(c)
      ensures Whole(c', t') == Whole(c, t)
    {
      hide At;
      Around(c, t);
      RefocusAt(c, t);
      ghost var p := Wrap(c, t);
      Around(c.up, p);
      RefocusAt(c.up, p);
      Around(c.up.up, Wrap(c.up, p));
      var parent := node.parent;
      var gparent := parent.parent;
      var uncle := gparent.right;
      WholeWrap(c, t);
      WholeWrap(c.up, p);
      if uncle != null && uncle.color == Red {
        RecolorLeft(parent, gparent, uncle, c.up, p);
        node', c', t', h' := gparent, c.up.up, LeftRecolor(c.up, p), h + 1;
        LeftRecolorBalanced(c, t, h);
      } else {
        ghost var w;
        node', w := RotateApartLeft(node, parent, gparent, c, t);
        c' := InLeft(item := w.item, color := w.color, right := w.right, up := c.up.up);
        t', h' := w.left, h;
        RefocusAt(c', t');
        LeftRepairBalanced(c, t, h);
        WholeWrap(c', t');
      }
    }

    /** rb_insert_color, parent a right child, uncle black: rotate the red pair apart. */
    method RotateApartRight(node: Node, parent: Node, gparent: Node, ghost c: Ctx<Node>, ghost t: Tree<Node>)
      returns (node': Node, ghost w: Tree<Node>)
      requires At(c, t) && t.Branch? && t.item == node
      requires !c.Top? && c.item == parent && c.up.InRight? && c.up.item == gparent
      modifies this`top, nodes
      ensures w.Branch? && w.right.Branch? && w.left.Branch? && At(c.up.up, w) && w.right.item == node'
      ensures w == RightRepair(c, t)
    {
      hide At;
      ghost var p := Wrap(c, t);
      Around(c, t);
      RefocusAt(c, t);
      node' := node;
      var parent' := parent;
      if parent.left == node {
        RotateRight(parent, c.up, p);
        p := RotatedRight(p);
        parent', node' := node, parent;
      }
      Around(c.up, p);
      Paint(parent', Black, c.up, p);
      p := Painted(p, Black);
      RefocusAt(c.up, p);
      w := Wrap(c.up, p);
      Around(c.up.up, w);
      Paint(gparent, Red, c.up.up, w);
      RotateLeft(gparent, c.up.up, Painted(w, Red));
      w := RotatedLeft(Painted(w, Red));
    }

    /** One round of rb_insert_color when the parent is a right child. */
    method RepairRight(node: Node, ghost c: Ctx<Node>, ghost t: Tree<Node>, ghost h: int)
      returns (node': Node, ghost c': Ctx<Node>, ghost t': Tree<Node>, ghost h': int)
      requires Inserting(node, c, t, h) && !c.Top? && c.color == Red && c.up.InRight?
      modifies this`top, nodes
      ensures Inserting(node', c', t', h') && Depth(c') < Depth(c)
      ensures Whole(c', t') == Whole(c, t)
    {
      hide At;
      Around(c, t);
      RefocusAt(c, t);
      ghost var p := Wrap(c, t);
      Around(c.up, p);
      RefocusAt(c.up, p);
      Around(c.up.up, Wrap(c.up, p));
      var parent := node.parent;
      var gparent := parent.parent;
      var uncle := gparent.left;
      WholeWrap(c, t);
      WholeWrap(c.up, p);
      if uncle != null && uncle.color == Red {
        RecolorRight(parent, gparent, uncle, c.up, p);
        node', c', t', h' := gparent, c.up.up, RightRecolor(c.up, p), h + 1;
        RightRecolorBalanced(c, t, h);
      } else {
        ghost var w;
        node', w := RotateApartRight(node, parent, gparent, c, t);
        c' := InRight(item := w.item, color := w.color, left := w.left, up := c.up.up);
        t', h' := w.right, h;
        RefocusAt(c', t');
        RightRepairBalanced(c, t, h);
        WholeWrap(c', t');
      }
    }

    /** rb_insert_color: all balance laws hold again, and the order is untouched. */
    method InsertColor(newNode: Node, ghost c0: Ctx<Node>, ghost t0: Tree<Node>, ghost h0: int) returns (ghost tree: Tree<Node>)
      requires Inserting(newNode, c0, t0, h0)
      modifies this`top, nodes
      ensures At(Top, tree) && RedBlack(tree) && Inorder(tree) == Whole(c0, t0)
    {
      hide At;
      var node := newNode;
      ghost var c, t, h := c0, t0, h0;
      Around(c, t);
      while node.parent != null && node.parent.color == Red
        invariant Inserting(node, c, t, h) && Whole(c, t) == Whole(c0, t0)
        invariant node.parent == HoleParent(c) && (!c.Top? ==> c.item.color == c.color)
        decreases Depth(c)
      {
        var parent := node.parent;
        var gparent := parent.parent;
        RefocusAt(c, t);
        Around(c, t);
        Around(c.up, Wrap(c, t));
        if parent == gparent.left {
          node, c, t, h := RepairLeft(node, c, t, h);
        } else {
          node, c, t, h := RepairRight(node, c, t, h);
        }
        Around(c, t);
      }
      PlugInorder(c, t);
      PlugAt(c, t);
      tree := Plug(c, t);
      if c.Top? {
        assert Balanced(Painted(t, Black), h + 1);
      } else {
        PlugBalanced(c, t, h);
      }
      Around(Top, tree);
      Paint(top, Black, Top, tree);
      tree := Painted(tree, Black);
    }

    // --------------------------------------------------------------- erasure

    /** __rb_erase_color, hole on the left, sibling red: rotate it above the parent. */
    method RaiseLeft(parent: Node, other: Node, ghost c: Ctx<Node>, ghost t: Tree<Node>)
      requires At(c, t) && c.InLeft? && c.right.Branch? && parent == c.item && other == c.right.item
      modifies this`top, nodes
      ensures At(LeftRaised(c), t)
    {
      hide At;
      Around(c, t);
      TurnRight(c, t);
      Around(InRight(left := t, item := c.item, color := c.color, up := c.up), c.right);
      PaintRight(other, Black, c, t);
      ghost var c1 := c.(right := Painted(c.right, Black));
      PaintAbove(parent, Red, c1, t);
      ghost var c2 := PaintedAbove(c1, Red);
      RefocusAt(c2, t);
      RotateLeft(parent, c.up, Wrap(c2, t));
      ghost var c' := LeftRaised(c);
      assert RotatedLeft(Wrap(c2, t)) == Wrap(c'.up, Wrap(c', t));
      RefocusAt(c'.up, Wrap(c', t));
      RefocusAt(c', t);
    }

    /** __rb_erase_color, hole on the left, a nephew red: repay the deficit. */
    method RepayLeft(parent: Node, sibling: Node, ghost c: Ctx<Node>, ghost t: Tree<Node>)
      requires At(c, t) && c.InLeft? && c.right.Branch? && parent == c.item && sibling == c.right.item
      requires if IsBlack(c.right.right) then c.right.left.Branch? else c.right.right.Branch?
      modifies this`top, nodes
      ensures At(c.up, LeftRepaid(c, t))
    {
      hide At;
      var other := sibling;
      ghost var c' := c;
      ghost var cr := InRight(left := t, item := c.item, color := c.color, up := c.up);
      TurnRight(c, t);
      Around(cr, c.right);
      if other.right == null || other.right.color == Black {
        ghost var ci := InLeft(item := c.right.item, color := c.right.color, right := c.right.right, up := cr);
        RefocusAt(ci, c.right.left);
        Around(ci, c.right.left);
        Paint(other.left, Black, ci, c.right.left);
        PaintAbove(other, Red, ci, Painted(c.right.left, Black));
        RefocusAt(PaintedAbove(ci, Red), Painted(c.right.left, Black));
        RotateRight(other, cr, Wrap(PaintedAbove(ci, Red), Painted(c.right.left, Black)));
        c' := c.(right := LeftInnerRaised(c.right));
        TurnRight(c', t);
        Around(c', t);
        other := parent.right;
      }
      ghost var cr' := InRight(left := t, item := c'.item, color := c'.color, up := c'.up);
      Around(c', t);
      TurnRight(c', t);
      Around(cr', c'.right);
      PaintRight(other, parent.color, c', t);
      ghost var c1 := c'.(right := Painted(c'.right, c.color));
      PaintAbove(parent, Black, c1, t);
      ghost var c2 := PaintedAbove(c1, Black);
      ghost var cr2 := InRight(left := t, item := c2.item, color := c2.color, up := c2.up);
      TurnRight(c2, t);
      Around(cr2, c2.right);
      ghost var co := InRight(left := c2.right.left, item := c2.right.item, color := c2.right.color, up := cr2);
      RefocusAt(co, c2.right.right);
      Around(co, c2.right.right);
      Paint(other.right, Black, co, c2.right.right);
      RefocusAt(co, Painted(c2.right.right, Black));
      ghost var c3 := c2.(right := Wrap(co, Painted(c2.right.right, Black)));
      TurnRight(c3, t);
      RefocusAt(c3, t);
      RotateLeft(parent, c.up, Wrap(c3, t));
    }

    /** __rb_erase_color, hole on the right, sibling red: rotate it above the parent. */
    method RaiseRight(parent: Node, other: Node, ghost c: Ctx<Node>, ghost t: Tree<Node>)
      requires At(c, t) && c.InRight? && c.left.Branch? && parent == c.item && other == c.left.item
      modifies this`top, nodes
      ensures At(RightRaised(c), t)
    {
      hide At;
      Around(c, t);
      TurnLeft(c, t);
      Around(InLeft(right := t, item := c.item, color := c.color, up := c.up), c.left);
      PaintLeft(other, Black, c, t);
      ghost var c1 := c.(left := Painted(c.left, Black));
      PaintAbove(parent, Red, c1, t);
      ghost var c2 := PaintedAbove(c1, Red);
      RefocusAt(c2, t);
      RotateRight(parent, c.up, Wrap(c2, t));
      ghost var c' := RightRaised(c);
      assert RotatedRight(Wrap(c2, t)) == Wrap(c'.up, Wrap(c', t));
      RefocusAt(c'.up, Wrap(c', t));
      RefocusAt(c', t);
    }

    /** __rb_erase_color, hole on the right, a nephew red: repay the deficit. */
    method RepayRight(parent: Node, sibling: Node, ghost c: Ctx<Node>, ghost t: Tree<Node>)
      requires At(c, t) && c.InRight? && c.left.Branch? && parent == c.item && sibling == c.left.item
      requires if IsBlack(c.left.left) then c.left.right.Branch? else c.left.left.Branch?
      modifies this`top, nodes
      ensures At(c.up, RightRepaid(c, t))
    {
      hide At;
      var other := sibling;
      ghost var c' := c;
      ghost var cr := InLeft(right := t, item := c.item, color := c.color, up := c.up);
      TurnLeft(c, t);
      Around(cr, c.left);
      if other.left == null || other.left.color == Black {
        ghost var ci := InRight(item := c.left.item, color := c.left.color, left := c.left.left, up := cr);
        RefocusAt(ci, c.left.right);
        Around(ci, c.left.right);
        Paint(other.right, Black, ci, c.left.right);
        PaintAbove(other, Red, ci, Painted(c.left.right, Black));
        RefocusAt(PaintedAbove(ci, Red), Painted(c.left.right, Black));
        RotateLeft(other, cr, Wrap(PaintedAbove(ci, Red), Painted(c.left.right, Black)));
        c' := c.(left := RightInnerRaised(c.left));
        TurnLeft(c', t);
        Around(c', t);
        other := parent.left;
      }
      ghost var cr' := InLeft(right := t, item := c'.item, color := c'.color, up := c'.up);
      Around(c', t);
      TurnLeft(c', t);
      Around(cr', c'.left);
      PaintLeft(other, parent.color, c', t);
      ghost var c1 := c'.(left := Painted(c'.left, c.color));
      PaintAbove(parent, Black, c1, t);
      ghost var c2 := PaintedAbove(c1, Black);
      ghost var cr2 := InLeft(right := t, item := c2.item, color := c2.color, up := c2.up);
      TurnLeft(c2, t);
      Around(cr2, c2.left);
      ghost var co := InLeft(right := c2.left.right, item := c2.left.item, color := c2.left.color, up := cr2);
      RefocusAt(co, c2.left.left);
      Around(co, c2.left.left);
      Paint(other.left, Black, co, c2.left.left);
      RefocusAt(co, Painted(c2.left.left, Black));
      ghost var c3 := c2.(left := Wrap(co, Painted(c2.left.left, Black)));
      TurnLeft(c3, t);
      RefocusAt(c3, t);
      RotateRight(parent, c.up, Wrap(c3, t));
    }

    /** __rb_erase_color, hole on the left: after this the right sibling is black. */
    method ExposeLeft(parent: Node, ghost c: Ctx<Node>, ghost t: Tree<Node>, ghost h: int)
      returns (other: Node, ghost c': Ctx<Node>)
      requires At(c, t) && c.InLeft? && parent == c.item && Balanced(t, h) && Fits(c, h + 1)
      modifies this`top, nodes
      ensures At(c', t) && c'.InLeft? && c'.item == parent && Fits(c', h + 1) && Whole(c', t) == Whole(c, t)
      ensures c'.right.Branch? && c'.right.color == Black && c'.right.item == other
      ensures c' == c || (c'.color == Red && Depth(c'.up) == Depth(c))
    {
      hide At;
      HeightNonNegative(t, h);
      SiblingPresentLeft(c, h);
      Around(c, t);
      TurnRight(c, t);
      Around(InRight(left := t, item := c.item, color := c.color, up := c.up), c.right);
      other, c' := parent.right, c;
      if other.color == Red {
        RaiseLeft(parent, other, c, t);
        LeftRaisedFits(c, t, h);
        c' := LeftRaised(c);
        SiblingPresentLeft(c', h);
        Around(c', t);
        other := parent.right;
      }
    }

    /** One round of __rb_erase_color when the hole is a left child. */
    method RepairHoleLeft(parent: Node, ghost c0: Ctx<Node>, ghost t: Tree<Node>, ghost h: int)
      returns (done: bool, ghost c': Ctx<Node>, ghost t': Tree<Node>, ghost h': int)
      requires At(c0, t) && c0.InLeft? && parent == c0.item
      requires IsBlack(t) && Balanced(t, h) && Fits(c0, h + 1)
      modifies this`top, nodes
      ensures At(c', t') && Whole(c', t') == Whole(c0, t)
      ensures done ==> RedBlack(Plug(c', t'))
      ensures !done ==> Deficient(t', h') && Fits(c', h' + 1) && t'.Branch? && t'.item == parent
      ensures !done ==> Depth(c') <= Depth(c0) && (IsBlack(t') ==> Depth(c') < Depth(c0))
    {
      hide At;
      var other;
      ghost var c;
      other, c := ExposeLeft(parent, c0, t, h);
      TurnRight(c, t);
      Around(InRight(left := t, item := c.item, color := c.color, up := c.up), c.right);
      if (other.left == null || other.left.color == Black) && (other.right == null || other.right.color == Black) {
        PaintRight(other, Red, c, t);
        RefocusAt(c.(right := Painted(c.right, Red)), t);
        LeftDeficitMovesUp(c, t, h);
        done, c', t' := false, c.up, Wrap(c.(right := Painted(c.right, Red)), t);
        h' := if c.color == Red then h else h + 1;
      } else {
        RepayLeft(parent, other, c, t);
        LeftRepaidBalanced(c, t, h);
        WholeWrap(c, t);
        done, c', t', h' := true, c.up, LeftRepaid(c, t), h;
      }
    }

    /** __rb_erase_color, hole on the right: after this the left sibling is black. */
    method ExposeRight(parent: Node, ghost c: Ctx<Node>, ghost t: Tree<Node>, ghost h: int)
      returns (other: Node, ghost c': Ctx<Node>)
      requires At(c, t) && c.InRight? && parent == c.item && Balanced(t, h) && Fits(c, h + 1)
      modifies this`top, nodes
      ensures At(c', t) && c'.InRight? && c'.item == parent && Fits(c', h + 1) && Whole(c', t) == Whole(c, t)
      ensures c'.left.Branch? && c'.left.color == Black && c'.left.item == other
      ensures c' == c || (c'.color == Red && Depth(c'.up) == Depth(c))
    {
      hide At;
      HeightNonNegative(t, h);
      SiblingPresentRight(c, h);
      Around(c, t);
      TurnLeft(c, t);
      Around(InLeft(right := t, item := c.item, color := c.color, up := c.up), c.left);
      other, c' := parent.left, c;
      if other.color == Red {
        RaiseRight(parent, other, c, t);
        RightRaisedFits(c, t, h);
        c' := RightRaised(c);
        SiblingPresentRight(c', h);
        Around(c', t);
        other := parent.left;
      }
    }

    /** One round of __rb_erase_color when the hole is a right child. */
    method RepairHoleRight(parent: Node, ghost c0: Ctx<Node>, ghost t: Tree<Node>, ghost h: int)
      returns (done: bool, ghost c': Ctx<Node>, ghost t': Tree<Node>, ghost h': int)
      requires At(c0, t) && c0.InRight? && parent == c0.item
      requires IsBlack(t) && Balanced(t, h) && Fits(c0, h + 1)
      modifies this`top, nodes
      ensures At(c', t') && Whole(c', t') == Whole(c0, t)
      ensures done ==> RedBlack(Plug(c', t'))
      ensures !done ==> Deficient(t', h') && Fits(c', h' + 1) && t'.Branch? && t'.item == parent
      ensures !done ==> Depth(c') <= Depth(c0) && (IsBlack(t') ==> Depth(c') < Depth(c0))
    {
      hide At;
      var other;
      ghost var c;
      other, c := ExposeRight(parent, c0, t, h);
      TurnLeft(c, t);
      Around(InLeft(right := t, item := c.item, color := c.color, up := c.up), c.left);
      if (other.right == null || other.right.color == Black) && (other.left == null || other.left.color == Black) {
        PaintLeft(other, Red, c, t);
        RefocusAt(c.(left := Painted(c.left, Red)), t);
        RightDeficitMovesUp(c, t, h);
        done, c', t' := false, c.up, Wrap(c.(left := Painted(c.left, Red)), t);
        h' := if c.color == Red then h else h + 1;
      } else {
        RepayRight(parent, other, c, t);
        RightRepaidBalanced(c, t, h);
        WholeWrap(c, t);
        done, c', t', h' := true, c.up, RightRepaid(c, t), h;
      }
    }

    lemma {:induction false} TopOfCtx(c: Ctx<Node>, n: Node?)
      requires !c.Top?
      ensures TopNode(c, n) != null && TopNode(c, n) in CtxItems(c)
      decreases c
    {
      if !c.up.Top? { TopOfCtx(c.up, c.item); }
    }

    /** The loop test `node != root->rb_node` of __rb_erase_color. */
    lemma TopIsFocus(c: Ctx<Node>, t: Tree<Node>)
      requires At(c, t)
      ensures top == NodeOf(t) <==> c.Top?
    {
      if !c.Top? {
        TopOfCtx(c, NodeOf(t));
        assert t.Branch? ==> t.item in Items(t);
      }
    }

    /** One round of __rb_erase_color. */
    method RepairHole(node: Node?, parent: Node, ghost c: Ctx<Node>, ghost t: Tree<Node>, ghost h: int)
      returns (done: bool, ghost c': Ctx<Node>, ghost t': Tree<Node>, ghost h': int)
      requires At(c, t) && !c.Top? && parent == c.item && node == NodeOf(t)
      requires IsBlack(t) && Balanced(t, h) && Fits(c, h + 1)
      modifies this`top, nodes
      ensures At(c', t') && Whole(c', t') == Whole(c, t)
      ensures done ==> c'.Top? && RedBlack(t')
      ensures !done ==> Deficient(t', h') && Fits(c', h' + 1) && t'.Branch? && t'.item == parent
      ensures !done ==> Depth(c') <= Depth(c) && (IsBlack(t') ==> Depth(c') < Depth(c))
    {
      hide At;
      Around(c, t);
      HeightNonNegative(t, h);
      if parent.left == node {
        if c.InRight? { SiblingPresentRight(c, h); }
        done, c', t', h' := RepairHoleLeft(parent, c, t, h);
      } else {
        done, c', t', h' := RepairHoleRight(parent, c, t, h);
      }
      if done {
        PlugAt(c', t');
        PlugInorder(c', t');
        c', t' := Top, Plug(c', t');
      }
    }

    /** __rb_erase_color: repays the black node that is missing below the hole. */
    method EraseColor(child: Node?, hole: Node?, ghost c0: Ctx<Node>, ghost t0: Tree<Node>, ghost h0: int)
      returns (ghost tree: Tree<Node>)
      requires At(c0, t0) && NodeOf(t0) == child && HoleParent(c0) == hole
      requires Balanced(t0, h0) && Fits(c0, h0 + 1)
      modifies this`top, nodes
      ensures At(Top, tree) && RedBlack(tree) && Inorder(tree) == Whole(c0, t0)
    {
      hide At;
      var node, parent := child, hole;
      ghost var c, t, h := c0, t0, h0;
      var done := false;
      Around(c, t);
      TopIsFocus(c, t);
      while (node == null || node.color == Black) && node != top
        invariant At(c, t) && NodeOf(t) == node && HoleParent(c) == parent && Whole(c, t) == Whole(c0, t0)
        invariant !done && Deficient(t, h) && Fits(c, h + 1)
        invariant (node != null ==> node.color == t.color) && (top == node <==> c.Top?)
        decreases Depth(c), if IsBlack(t) then 1 else 0
      {
        done, c, t, h := RepairHole(node, parent, c, t, h);
        Around(c, t);
        TopIsFocus(c, t);
        if done {
          node := top;
          break;
        }
        node := parent;
        parent := node.parent;
      }
      if !done { DeficientPainted(c, t, h); }
      Around(c, t);
      if node != null {
        Paint(node, Black, c, t);
        t := Painted(t, Black);
      }
      tree := Plug(c, t);
      PlugAt(c, t);
      PlugInorder(c, t);
    }

    /** The child slot of `parent`, or the root slot, that held `was` gets `n`. */
    method SetSlot(parent: Node?, was: Node, n: Node?)
      modifies this`top, if parent == null then {} else {parent}
      ensures top == if parent == null then n else old(top)
      ensures parent != null ==> parent.parent == old(parent.parent) && parent.color == old(parent.color)
      ensures parent != null && old(parent.left) == was ==> parent.left == n && parent.right == old(parent.right)
      ensures parent != null && old(parent.left) != was ==> parent.left == old(parent.left) && parent.right == n
    {
      if parent != null {
        if parent.left == was {
          parent.left := n;
        } else {
          parent.right := n;
        }
      } else {
        top := n;
      }
    }

    /** The tail of rb_erase: a node with at most one child is cut out. */
    method CutLinks(node: Node, child: Node?)
      requires node in nodes && node.parent != node && (node.parent != null ==> node.parent in nodes)
      requires child != null ==> child in nodes && child != node && child != node.parent
      modifies this, nodes
      ensures nodes == old(nodes) - {node} && Snapshot() == Detach(old(Snapshot()), node, child)
      ensures top == if old(node.parent) == null then child else old(top)
    {
      var parent := node.parent;
      if child != null {
        child.parent := parent;
      }
      SetSlot(parent, node, child);
      nodes := nodes - {node};
    }

    /** The branch of rb_erase for a node with two children, link by link. */
    method SpliceLinks(erased: Node, node: Node) returns (child: Node?, parent: Node, color: Color)
      requires erased in nodes && node in nodes && erased != node
      requires erased.left != null && erased.right != null && node.parent != null
      requires {erased.left, erased.right, node.parent} <= nodes && node.parent != node
      requires erased.left !in {erased, node, erased.right, node.parent, node.right}
      requires erased.right !in {erased, node.right} && (erased.right == node <==> node.parent == erased)
      requires node.right != null ==> node.right in nodes && node.right !in {node, erased, node.parent}
      requires erased.parent != null ==> erased.parent in nodes
      requires erased.parent != null ==>
        erased.parent !in {erased, node, erased.left, erased.right, node.parent, node.right}
      modifies this, nodes
      ensures nodes == old(nodes) - {erased}
      ensures top == if old(erased.parent) == null then node else old(top)
      ensures child == old(node.right) && color == old(node.color)
      ensures parent == if old(node.parent) == erased then node else old(node.parent)
      ensures node.left == old(erased.left) && node.parent == old(erased.parent) && node.color == old(erased.color)
      ensures node.right == if old(node.parent) == erased then old(node.right) else old(erased.right)
      ensures var l := old(erased.left); l.parent == node && unchanged(l`left, l`right, l`color)
      ensures var p := old(erased.parent); p != null ==> (
        && unchanged(p`parent, p`color)
        && p.left == (if old(erased.parent.left) == erased then node else old(erased.parent.left))
        && p.right == (if old(erased.parent.left) == erased then old(erased.parent.right) else node))
      ensures var q, r, k := old(node.parent), old(erased.right), old(node.right);
        q != erased ==> (
          && q.left == k && unchanged(q`right, q`color) && (q != r ==> unchanged(q`parent))
          && r.parent == node && unchanged(r`right, r`color) && (q != r ==> unchanged(r`left))
          && (k != null ==> k.parent == q && unchanged(k`left, k`right, k`color)))
      ensures var l, p, q, r, k := old(erased.left), old(erased.parent), old(node.parent), old(erased.right), old(node.right);
        forall w :: w in nodes && w != node && w != l && w != p && (q == erased || (w != k && w != q && w != r)) ==> unchanged(w)
    {
      SetSlot(erased.parent, erased, node);
      child := node.right;
      parent := node.parent;
      color := node.color;
      if parent == erased {
        parent := node;
      } else {
        if child != null {
          child.parent := parent;
        }
        parent.left := child;
        node.right := erased.right;
        erased.right.parent := node;
      }
      node.parent, node.color := erased.parent, erased.color;
      node.left := erased.left;
      erased.left.parent := node;
      nodes := nodes - {erased};
    }

    method Splice(erased: Node, node: Node) returns (child: Node?, parent: Node, color: Color)
      requires Spliceable(Snapshot(), erased, node)
      modifies this, nodes
      ensures nodes == old(nodes) - {erased} && Spliced(old(Snapshot()), Snapshot(), erased, node)
      ensures top == if old(erased.parent) == null then node else old(top)
      ensures child == old(node.right) && color == old(node.color)
      ensures parent == if old(node.parent) == erased then node else old(node.parent)
    {
      ghost var m := Snapshot();
      assert m[erased] == Link(erased.left, erased.right, erased.parent, erased.color);
      assert m[node] == Link(node.left, node.right, node.parent, node.color);
      child, parent, color := SpliceLinks(erased, node);
    }

    method CutAt(node: Node, child: Node?, ghost c: Ctx<Node>, ghost t: Tree<Node>)
      requires At(c, t) && t.Branch? && t.item == node && (t.left.Leaf? || t.right.Leaf?)
      requires child == NodeOf(OnlyChild(t))
      modifies this, nodes
      ensures nodes == old(nodes) - {node} && At(c, OnlyChild(t))
    {
      ghost var m := Snapshot();
      DetachPictures(m, c, t);
      assert OnlyChild(t).Branch? ==> OnlyChild(t).item in Items(OnlyChild(t));
      assert !c.Top? ==> c.item in CtxItems(c);
      assert m[node] == Link(node.left, node.right, node.parent, node.color);
      CutLinks(node, child);
    }

    method SpliceAt(erased: Node, node: Node, ghost c: Ctx<Node>, ghost t: Tree<Node>)
      returns (child: Node?, parent: Node, color: Color)
      requires At(c, t) && t.Branch? && t.item == node && t.left.Leaf?
      requires OnSpine(c) && Base(c).item == erased && Base(c).left.Branch?
      modifies this, nodes
      ensures nodes == old(nodes) - {erased} && At(Renamed(c, node), t.right)
      ensures child == NodeOf(t.right) && parent == HoleParent(Renamed(c, node)) && color == t.color
    {
      hide Pictures;
      ghost var m := Snapshot();
      SuccessorSpliceable(m, c, t);
      assert m[erased] == Link(erased.left, erased.right, erased.parent, erased.color);
      assert m[node] == Link(node.left, node.right, node.parent, node.color);
      TopOfSpine(c, NodeOf(t), node);
      TopOfSpine(c, NodeOf(t.right), node);
      child, parent, color := Splice(erased, node);
      SplicedPictures(m, Snapshot(), c, t);
    }

    /** The successor of a node with two children: leftmost below its right child. */
    method Successor(erased: Node, ghost c0: Ctx<Node>, ghost t0: Tree<Node>)
      returns (node: Node, ghost c: Ctx<Node>, ghost t: Tree<Node>)
      requires At(c0, t0) && t0.Branch? && t0.item == erased && t0.right.Branch?
      ensures At(c, t) && t.Branch? && t.item == node && t.left.Leaf?
      ensures OnSpine(c) && Base(c) == InRight(t0.left, t0.item, t0.color, c0)
      ensures Plug(c, t) == Plug(c0, t0) && Whole(c, t) == Whole(c0, t0)
    {
      hide At;
      Around(c0, t0);
      node := erased.right;
      c, t := InRight(t0.left, t0.item, t0.color, c0), t0.right;
      RefocusAt(c, t);
      WholeWrap(c, t);
      Around(c, t);
      while node.left != null
        invariant At(c, t) && t.Branch? && t.item == node && node.left == NodeOf(t.left)
        invariant OnSpine(c) && Base(c) == InRight(t0.left, t0.item, t0.color, c0)
        invariant Plug(c, t) == Plug(c0, t0) && Whole(c, t) == Whole(c0, t0)
        decreases t
      {
        node := node.left;
        c, t := InLeft(t.item, t.color, t.right, c), t.left;
        RefocusAt(c, t);
        WholeWrap(c, t);
        Around(c, t);
      }
    }

    /** What rb_erase still has to do once a node has been taken out of a red-black
        tree: nothing if the node was red, repay the missing black node otherwise. */
    method Settle(child: Node?, parent: Node?, color: Color, ghost c: Ctx<Node>, ghost t: Tree<Node>, ghost h: int)
      returns (ghost tree: Tree<Node>)
      requires At(c, t) && NodeOf(t) == child && HoleParent(c) == parent && Fits(c, h)
      requires Balanced(t, if color == Red then h else h - 1) && (color == Red ==> IsBlack(t))
      modifies this`top, nodes
      ensures At(Top, tree) && RedBlack(tree) && Inorder(tree) == Whole(c, t)
    {
      hide At;
      if color == Black {
        tree := EraseColor(child, parent, c, t, h - 1);
      } else {
        tree := Plug(c, t);
        PlugAt(c, t);
        PlugInorder(c, t);
        PlugBalanced(c, t, h);
      }
    }

    method EraseOneChild(node: Node, ghost c: Ctx<Node>, ghost t: Tree<Node>) returns (ghost tree: Tree<Node>)
      requires At(c, t) && t.Branch? && t.item == node && RedBlack(Plug(c, t)) && (t.left.Leaf? || t.right.Leaf?)
      modifies this, nodes
      ensures nodes == old(nodes) - {node} && At(Top, tree) && RedBlack(tree)
      ensures Inorder(tree) == Whole(c, OnlyChild(t))
    {
      hide At;
      Around(c, t);
      var child := if node.left == null then node.right else node.left;
      var parent, color := node.parent, node.color;
      ghost var h := UnplugBalanced(c, t);
      CutAt(node, child, c, t);
      tree := Settle(child, parent, color, c, OnlyChild(t), h);
    }

    method EraseTwoChildren(node: Node, ghost c: Ctx<Node>, ghost t: Tree<Node>) returns (ghost tree: Tree<Node>)
      requires At(c, t) && t.Branch? && t.item == node && RedBlack(Plug(c, t)) && t.left.Branch? && t.right.Branch?
      modifies this, nodes
      ensures nodes == old(nodes) - {node} && At(Top, tree) && RedBlack(tree)
      ensures Inorder(tree) == Before(c) + Inorder(t.left) + Inorder(t.right) + After(c)
    {
      hide At;
      var next, child, parent, color;
      ghost var c1, t1;
      next, c1, t1 := Successor(node, c, t);
      ghost var h := UnplugBalanced(c1, t1);
      child, parent, color := SpliceAt(node, next, c1, t1);
      RenamedSpine(c1, t1.right, next, h);
      MovedSuccessor(c, t, c1, t1);
      tree := Settle(child, parent, color, Renamed(c1, next), t1.right, h);
    }

    /** rb_erase at a known place. */
    method EraseAt(node: Node, ghost c: Ctx<Node>, ghost t: Tree<Node>) returns (ghost tree: Tree<Node>)
      requires At(c, t) && t.Branch? && t.item == node && RedBlack(Plug(c, t))
      modifies this, nodes
      ensures nodes == old(nodes) - {node} && At(Top, tree) && RedBlack(tree)
      ensures Inorder(tree) == Before(c) + Inorder(t.left) + Inorder(t.right) + After(c)
    {
      hide At;
      Around(c, t);
      if node.left == null || node.right == null {
        tree := EraseOneChild(node, c, t);
      } else {
        tree := EraseTwoChildren(node, c, t);
      }
    }
  }
}
