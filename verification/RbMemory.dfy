/** Red-black nodes in memory, and what pointer surgery does to the tree they picture. */
module RbMemory {
  import opened RbShape

  /** Keys compared by signed 64-bit difference, as buffer numbers below 2^63 are. */
  type Key = k: int | 0 <= k < 0x1_0000_0000_0000_0000

  /** A tree node together with the block key of the buffer head that embeds it. */
  class Node {
    const key: Key
    var left: Node?
    var right: Node?
    var parent: Node?
    var color: Color

    constructor (key: Key)
      ensures this.key == key
    {
      this.key := key;
      left, right, parent, color := null, null, null, Red;
    }
  }

  /** The mutable fields of one node, and of all nodes of a tree. */
  datatype Link = Link(left: Node?, right: Node?, parent: Node?, color: Color)
  type Memory = map<Node, Link>

  ghost function NodeOf(t: Tree<Node>): Node? {
    if t.Leaf? then null else t.item
  }

  ghost function HoleParent(c: Ctx<Node>): Node? {
    if c.Top? then null else c.item
  }

  ghost function TopNode(c: Ctx<Node>, n: Node?): Node?
    decreases c
  {
    if c.Top? then n else TopNode(c.up, c.item)
  }

  /** Memory `m` links and colours the nodes of `t` as `t` says, below `p`. */
  ghost predicate Linked(t: Tree<Node>, p: Node?, m: Memory) {
    match t
    case Leaf => true
    case Branch(l, x, col, r) =>
      x in m && m[x] == Link(NodeOf(l), NodeOf(r), p, col) && Linked(l, x, m) && Linked(r, x, m)
  }

  /** Memory `m` links the nodes of `c`, with `n` in the hole. */
  ghost predicate CtxLinked(c: Ctx<Node>, n: Node?, m: Memory)
    decreases c
  {
    match c
    case Top => true
    case InLeft(x, col, r, up) =>
      x in m && m[x] == Link(n, NodeOf(r), HoleParent(up), col) && Linked(r, x, m) && CtxLinked(up, x, m)
    case InRight(l, x, col, up) =>
      x in m && m[x] == Link(NodeOf(l), n, HoleParent(up), col) && Linked(l, x, m) && CtxLinked(up, x, m)
  }

  /** `m` is the picture of the tree Plug(c, t). */
  ghost predicate Pictures(m: Memory, c: Ctx<Node>, t: Tree<Node>) {
    CtxItems(c) + Items(t) == m.Keys && Apart(c, t)
    && Linked(t, HoleParent(c), m) && CtxLinked(c, NodeOf(t), m)
  }

  ghost predicate SameOn(m: Memory, m': Memory, s: set<Node>) {
    forall x :: x in s && x in m ==> x in m' && m[x] == m'[x]
  }

  lemma {:induction false} LinkedFrame(t: Tree<Node>, p: Node?, m: Memory, m': Memory)
    requires Linked(t, p, m) && SameOn(m, m', Items(t))
    ensures Linked(t, p, m')
    decreases t
  {
    match t
    case Leaf =>
    case Branch(l, x, _, r) => LinkedFrame(l, x, m, m'); LinkedFrame(r, x, m, m');
  }

  lemma {:induction false} CtxLinkedFrame(c: Ctx<Node>, n: Node?, m: Memory, m': Memory)
    requires CtxLinked(c, n, m) && SameOn(m, m', CtxItems(c))
    ensures CtxLinked(c, n, m')
    decreases c
  {
    match c
    case Top =>
    case InLeft(x, _, r, up) => LinkedFrame(r, x, m, m'); CtxLinkedFrame(up, x, m, m');
    case InRight(l, x, _, up) => LinkedFrame(l, x, m, m'); CtxLinkedFrame(up, x, m, m');
  }

  /** The root of a linked subtree gets another parent. */
  ghost function Reparent(m: Memory, n: Node?, p: Node?): Memory {
    if n != null && n in m then m[n := m[n].(parent := p)] else m
  }

  /** The node above the hole gets another child in the hole. */
  ghost function Rehang(m: Memory, c: Ctx<Node>, n: Node?): Memory {
    if c.Top? || c.item !in m then m
    else if c.InLeft? then m[c.item := m[c.item].(left := n)]
    else m[c.item := m[c.item].(right := n)]
  }

  lemma ReparentLinked(t: Tree<Node>, p: Node?, q: Node?, m: Memory)
    requires Linked(t, p, m) && Distinct(t)
    ensures Linked(t, q, Reparent(m, NodeOf(t), q))
  {
    if t.Branch? {
      var m' := Reparent(m, t.item, q);
      LinkedFrame(t.left, t.item, m, m');
      LinkedFrame(t.right, t.item, m, m');
    }
  }

  lemma RehangLinked(c: Ctx<Node>, n: Node?, n': Node?, m: Memory)
    requires CtxLinked(c, n, m) && CtxDistinct(c)
    ensures CtxLinked(c, n', Rehang(m, c, n'))
  {
    var m' := Rehang(m, c, n');
    match c
    case Top =>
    case InLeft(x, _, r, up) => LinkedFrame(r, x, m, m'); CtxLinkedFrame(up, x, m, m');
    case InRight(l, x, _, up) => LinkedFrame(l, x, m, m'); CtxLinkedFrame(up, x, m, m');
  }

  // ------------------------------------------------------ rotations in memory

  /** What replacing a rotated subtree does to the memory around it. */
  lemma SubtreeReplaced(m: Memory, m': Memory, c: Ctx<Node>, t: Tree<Node>, t': Tree<Node>)
    requires Pictures(m, c, t) && Distinct(t') && Items(t') == Items(t) && m'.Keys == m.Keys
    requires Linked(t', HoleParent(c), m') && SameOn(Rehang(m, c, NodeOf(t')), m', CtxItems(c))
    ensures Pictures(m', c, t')
  {
    RehangLinked(c, NodeOf(t), NodeOf(t'), m);
    CtxLinkedFrame(c, NodeOf(t'), Rehang(m, c, NodeOf(t')), m');
  }

  /** What a left rotation does inside the rotated subtree. */
  lemma LeftRotationLinked(m: Memory, m': Memory, p: Node?, t: Tree<Node>)
    requires t.Branch? && t.right.Branch? && Distinct(t) && Linked(t, p, m)
    requires var b := NodeOf(t.right.left);
      && t.item in m' && m'[t.item] == Link(left := NodeOf(t.left), right := b, parent := t.right.item, color := t.color)
      && t.right.item in m' && m'[t.right.item] == Link(left := t.item, right := NodeOf(t.right.right), parent := p, color := t.right.color)
      && SameOn(Reparent(m, b, t.item), m', Items(t) - {t.item, t.right.item})
    ensures Linked(RotatedLeft(t), p, m')
  {
    var x, y, a, b, d := t.item, t.right.item, t.left, t.right.left, t.right.right;
    assert Items(t.right) == Items(b) + {y} + Items(d) && Distinct(t.right) && Linked(t.right, x, m);
    assert b.Branch? ==> b.item in Items(b);
    ReparentLinked(b, y, x, m);
    LinkedFrame(b, x, Reparent(m, NodeOf(b), x), m');
    LinkedFrame(a, x, m, m');
    LinkedFrame(d, y, m, m');
    assert Linked(Branch(left := a, item := x, color := t.color, right := b), y, m');
  }

  /** The links a left rotation of `x` writes, in a memory without aliasing among
      the four nodes concerned. */
  ghost predicate LeftRotatable(m: Memory, x: Node) {
    && x in m && m[x].right != null && m[x].right in m
    && var y, p := m[x].right, m[x].parent;
      var b := m[y].left;
      && x != y
      && (b != null ==> b in m && b != x && b != y)
      && (p != null ==> p in m && p != x && p != y && p != b)
  }

  ghost predicate LeftRotated(m: Memory, m': Memory, x: Node)
    requires LeftRotatable(m, x)
  {
    var y, p := m[x].right, m[x].parent;
    var b := m[y].left;
    && m'.Keys == m.Keys
    && m'[x] == m[x].(right := b, parent := y)
    && m'[y] == m[y].(left := x, parent := p)
    && (b != null ==> m'[b] == m[b].(parent := x))
    && (p != null ==> m'[p] == if m[p].left == x then m[p].(left := y) else m[p].(right := y))
    && forall z :: z in m && z != x && z != y && z != b && z != p ==> m'[z] == m[z]
  }

  lemma LeftRotatableAt(m: Memory, c: Ctx<Node>, t: Tree<Node>)
    requires Pictures(m, c, t) && t.Branch? && t.right.Branch?
    ensures LeftRotatable(m, t.item)
    ensures m[t.item] == Link(left := NodeOf(t.left), right := t.right.item, parent := HoleParent(c), color := t.color)
    ensures m[t.right.item] == Link(left := NodeOf(t.right.left), right := NodeOf(t.right.right), parent := t.item, color := t.right.color)
    ensures !c.Top? ==> (m[c.item].left == t.item <==> c.InLeft?)
  {
    var b := t.right.left;
    assert Linked(t.right, t.item, m) && Linked(b, t.right.item, m);
    assert t.right.item in Items(t.right) && (b.Branch? ==> b.item in Items(b) && b.item in Items(t.right));
    assert !c.Top? ==> c.item in CtxItems(c) && c.item !in Items(t);
    assert c.InRight? && c.left.Branch? ==> c.left.item in Items(c.left);
  }

  lemma LeftRotationPictures(m: Memory, m': Memory, c: Ctx<Node>, t: Tree<Node>)
    requires Pictures(m, c, t) && t.Branch? && t.right.Branch?
    requires LeftRotatable(m, t.item) && LeftRotated(m, m', t.item)
    ensures Pictures(m', c, RotatedLeft(t))
  {
    LeftRotatableAt(m, c, t);
    assert t.right.item in Items(t.right);
    assert t.right.left.Branch? ==> t.right.left.item in Items(t.right.left) && t.right.left.item in Items(t.right);
    LeftRotationLinked(m, m', HoleParent(c), t);
    SubtreeReplaced(m, m', c, t, RotatedLeft(t));
  }

  /** What a right rotation does inside the rotated subtree. */
  lemma RightRotationLinked(m: Memory, m': Memory, p: Node?, t: Tree<Node>)
    requires t.Branch? && t.left.Branch? && Distinct(t) && Linked(t, p, m)
    requires var b := NodeOf(t.left.right);
      && t.item in m' && m'[t.item] == Link(right := NodeOf(t.right), left := b, parent := t.left.item, color := t.color)
      && t.left.item in m' && m'[t.left.item] == Link(right := t.item, left := NodeOf(t.left.left), parent := p, color := t.left.color)
      && SameOn(Reparent(m, b, t.item), m', Items(t) - {t.item, t.left.item})
    ensures Linked(RotatedRight(t), p, m')
  {
    var x, y, a, b, d := t.item, t.left.item, t.right, t.left.right, t.left.left;
    assert Items(t.left) == Items(b) + {y} + Items(d) && Distinct(t.left) && Linked(t.left, x, m);
    assert b.Branch? ==> b.item in Items(b);
    ReparentLinked(b, y, x, m);
    LinkedFrame(b, x, Reparent(m, NodeOf(b), x), m');
    LinkedFrame(a, x, m, m');
    LinkedFrame(d, y, m, m');
    assert Linked(Branch(right := a, item := x, color := t.color, left := b), y, m');
  }

  /** The links a right rotation of `x` writes, in a memory without aliasing among
      the four nodes concerned. */
  ghost predicate RightRotatable(m: Memory, x: Node) {
    && x in m && m[x].left != null && m[x].left in m
    && var y, p := m[x].left, m[x].parent;
      var b := m[y].right;
      && x != y
      && (b != null ==> b in m && b != x && b != y)
      && (p != null ==> p in m && p != x && p != y && p != b)
  }

  ghost predicate RightRotated(m: Memory, m': Memory, x: Node)
    requires RightRotatable(m, x)
  {
    var y, p := m[x].left, m[x].parent;
    var b := m[y].right;
    && m'.Keys == m.Keys
    && m'[x] == m[x].(left := b, parent := y)
    && m'[y] == m[y].(right := x, parent := p)
    && (b != null ==> m'[b] == m[b].(parent := x))
    && (p != null ==> m'[p] == if m[p].right == x then m[p].(right := y) else m[p].(left := y))
    && forall z :: z in m && z != x && z != y && z != b && z != p ==> m'[z] == m[z]
  }

  lemma RightRotatableAt(m: Memory, c: Ctx<Node>, t: Tree<Node>)
    requires Pictures(m, c, t) && t.Branch? && t.left.Branch?
    ensures RightRotatable(m, t.item)
    ensures m[t.item] == Link(right := NodeOf(t.right), left := t.left.item, parent := HoleParent(c), color := t.color)
    ensures m[t.left.item] == Link(right := NodeOf(t.left.right), left := NodeOf(t.left.left), parent := t.item, color := t.left.color)
    ensures !c.Top? ==> (m[c.item].right == t.item <==> c.InRight?)
  {
    var b := t.left.right;
    assert Linked(t.left, t.item, m) && Linked(b, t.left.item, m);
    assert t.left.item in Items(t.left) && (b.Branch? ==> b.item in Items(b) && b.item in Items(t.left));
    assert !c.Top? ==> c.item in CtxItems(c) && c.item !in Items(t);
    assert c.InLeft? && c.right.Branch? ==> c.right.item in Items(c.right);
  }

  lemma RightRotationPictures(m: Memory, m': Memory, c: Ctx<Node>, t: Tree<Node>)
    requires Pictures(m, c, t) && t.Branch? && t.left.Branch?
    requires RightRotatable(m, t.item) && RightRotated(m, m', t.item)
    ensures Pictures(m', c, RotatedRight(t))
  {
    RightRotatableAt(m, c, t);
    assert t.left.item in Items(t.left);
    assert t.left.right.Branch? ==> t.left.right.item in Items(t.left.right) && t.left.right.item in Items(t.left);
    RightRotationLinked(m, m', HoleParent(c), t);
    SubtreeReplaced(m, m', c, t, RotatedRight(t));
  }

  // ------------------------------------------------------- focus and recolour

  lemma Refocus(m: Memory, c: Ctx<Node>, t: Tree<Node>)
    requires !c.Top?
    ensures Pictures(m, c, t) <==> Pictures(m, c.up, Wrap(c, t))
  {
    assert CtxItems(c) + Items(t) == CtxItems(c.up) + Items(Wrap(c, t));
  }

  lemma PaintPictures(m: Memory, c: Ctx<Node>, t: Tree<Node>, col: Color)
    requires Pictures(m, c, t) && t.Branch?
    ensures t.item in m
    ensures Pictures(m[t.item := m[t.item].(color := col)], c, Painted(t, col))
  {
    var m' := m[t.item := m[t.item].(color := col)];
    LinkedFrame(t.left, t.item, m, m');
    LinkedFrame(t.right, t.item, m, m');
    CtxLinkedFrame(c, t.item, m, m');
  }

  lemma LinkPictures(m: Memory, m': Memory, c: Ctx<Node>, n: Node)
    requires Pictures(m, c, Leaf) && n !in m && m'.Keys == m.Keys + {n}
    requires m'[n] == Link(null, null, HoleParent(c), Red) && SameOn(Rehang(m, c, n), m', CtxItems(c))
    ensures Pictures(m', c, Branch(Leaf, n, Red, Leaf))
  {
    RehangLinked(c, null, n, m);
    CtxLinkedFrame(c, n, Rehang(m, c, n), m');
    assert CtxItems(c) + Items(Branch(Leaf, n, Red, Leaf)) == m'.Keys;
  }

  // ---------------------------------------------------- unlinking in memory

  /** The links of `z` after `n` takes the place of `x` below the parent of `x`. */
  ghost function Relinked(m: Memory, x: Node, n: Node?, z: Node): Link
    requires x in m && z in m
  {
    if m[x].parent != z then m[z]
    else if m[z].left == x then m[z].(left := n) else m[z].(right := n)
  }

  lemma CtxRelinked(m: Memory, m': Memory, c: Ctx<Node>, x: Node, n: Node?)
    requires x in m && CtxLinked(c, x, m) && CtxDistinct(c) && x !in CtxItems(c) && m[x].parent == HoleParent(c)
    requires forall z :: z in CtxItems(c) && z in m ==> z in m' && m'[z] == Relinked(m, x, n, z)
    ensures CtxLinked(c, n, m')
  {
    assert !c.Top? ==> c.item in CtxItems(c) && c.item in m;
    assert c.InRight? ==> m[c.item].left == NodeOf(c.left) && (c.left.Branch? ==> c.left.item in Items(c.left));
    RehangLinked(c, x, n, m);
    assert SameOn(Rehang(m, c, n), m', CtxItems(c));
    CtxLinkedFrame(c, n, Rehang(m, c, n), m');
  }

  lemma SubtreeReparented(m: Memory, m': Memory, t: Tree<Node>, p: Node?, q: Node?)
    requires Linked(t, p, m) && Distinct(t)
    requires forall z :: z in Items(t) && z in m ==>
      z in m' && m'[z] == if z == NodeOf(t) then m[z].(parent := q) else m[z]
    ensures Linked(t, q, m')
  {
    ReparentLinked(t, p, q, m);
    LinkedFrame(t, q, Reparent(m, NodeOf(t), q), m');
  }

  /** Memory after the node `y`, whose only child is `k`, is cut out. */
  ghost function Detach(m: Memory, y: Node, k: Node?): Memory
    requires y in m
  {
    map z | z in m && z != y :: if z == k then m[z].(parent := m[y].parent) else Relinked(m, y, k, z)
  }

  ghost function OnlyChild(t: Tree<Node>): Tree<Node>
    requires t.Branch?
  {
    if t.left.Leaf? then t.right else t.left
  }

  lemma DetachPictures(m: Memory, c: Ctx<Node>, t: Tree<Node>)
    requires Pictures(m, c, t) && t.Branch? && (t.left.Leaf? || t.right.Leaf?)
    ensures t.item in m && m[t.item].parent == HoleParent(c)
    ensures Pictures(Detach(m, t.item, NodeOf(OnlyChild(t))), c, OnlyChild(t))
  {
    var y, k := t.item, OnlyChild(t);
    var m' := Detach(m, y, NodeOf(k));
    assert Items(t) == {y} + Items(k) && Distinct(k) && Linked(k, y, m);
    assert k.Branch? ==> k.item in Items(k);
    assert !c.Top? ==> c.item in CtxItems(c);
    CtxRelinked(m, m', c, y, NodeOf(k));
    SubtreeReparented(m, m', k, y, HoleParent(c));
  }

  /** Memory after the new node `y` takes over the place, links and colour of `x`. */
  ghost function Replace(m: Memory, x: Node, y: Node): Memory
    requires x in m && y !in m
  {
    map z | z in m.Keys - {x} + {y} ::
      if z == y then m[x]
      else if z == m[x].left || z == m[x].right then m[z].(parent := y) else Relinked(m, x, y, z)
  }

  lemma ReplaceLinked(m: Memory, m': Memory, t: Tree<Node>, p: Node?, y: Node)
    requires t.Branch? && Linked(t, p, m) && Distinct(t) && y in m' && m'[y] == m[t.item]
    requires forall z :: z in Items(t) && z in m && z != t.item ==>
      z in m' && m'[z] == if z == NodeOf(t.left) || z == NodeOf(t.right) then m[z].(parent := y) else m[z]
    ensures Linked(t.(item := y), p, m')
  {
    assert t.left.Branch? ==> t.left.item in Items(t.left);
    assert t.right.Branch? ==> t.right.item in Items(t.right);
    SubtreeReparented(m, m', t.left, t.item, y);
    SubtreeReparented(m, m', t.right, t.item, y);
  }

  lemma ReplacePictures(m: Memory, c: Ctx<Node>, t: Tree<Node>, y: Node)
    requires Pictures(m, c, t) && t.Branch? && y !in m
    ensures t.item in m
    ensures Pictures(Replace(m, t.item, y), c, t.(item := y))
  {
    var m' := Replace(m, t.item, y);
    assert t.left.Branch? ==> t.left.item in Items(t.left);
    assert t.right.Branch? ==> t.right.item in Items(t.right);
    assert !c.Top? ==> c.item in CtxItems(c);
    CtxRelinked(m, m', c, t.item, y);
    ReplaceLinked(m, m', t, HoleParent(c), y);
    assert CtxItems(c) + Items(t.(item := y)) == m'.Keys;
  }

  /** Unplugging along the left spine below a base node. */
  lemma {:induction false} SpinePictures(m: Memory, c: Ctx<Node>, t: Tree<Node>)
    requires OnSpine(c)
    ensures Pictures(m, c, t) <==> Pictures(m, Base(c).up, Wrap(Base(c), PlugSpine(c, t)))
    decreases c
  {
    Refocus(m, c, t);
    if c.InLeft? { SpinePictures(m, c.up, Wrap(c, t)); }
  }

  /** The links rb_erase follows when it moves the successor `y` into the place of `z`. */
  ghost predicate Spliceable(m: Memory, z: Node, y: Node) {
    && z in m && y in m && z != y
    && var l, r, k, q, p := m[z].left, m[z].right, m[y].right, m[y].parent, m[z].parent;
    && l != null && r != null && q != null && l in m && r in m && q in m && m[y].left == null
    && l != z && l != y && l != r && l != q && l != k
    && r != z && r != k && (r == y <==> q == z) && q != y && (q != z ==> m[q].left == y)
    && (k != null ==> k in m && k != y && k != z && k != q)
    && (p != null ==> p in m && p != z && p != y && p != l && p != r && p != q && p != k)
  }

  /** The links after `y` has moved into the place of `z`. */
  ghost predicate Spliced(m: Memory, m': Memory, z: Node, y: Node)
    requires Spliceable(m, z, y)
  {
    var l, r, k, q, p := m[z].left, m[z].right, m[y].right, m[y].parent, m[z].parent;
    && m'.Keys == m.Keys - {z}
    && m'[y] == Link(l, if q == z then k else r, p, m[z].color)
    && m'[l] == m[l].(parent := y)
    && (p != null ==> m'[p] == if m[p].left == z then m[p].(left := y) else m[p].(right := y))
    && (q != z ==>
        && (k != null ==> m'[k] == m[k].(parent := q))
        && m'[q] == m[q].(left := k, parent := if q == r then y else m[q].parent)
        && (r != q ==> m'[r] == m[r].(parent := y)))
    && forall w :: w in m' && w != y && w != l && w != p && (q == z || (w != k && w != q && w != r)) ==> m'[w] == m[w]
  }

  /** Moving the successor is: cut it out, then let it replace the erased node. */
  lemma SplicedIsDetachReplace(m: Memory, m': Memory, z: Node, y: Node)
    requires Spliceable(m, z, y) && Spliced(m, m', z, y)
    requires m[y].right != null ==> m[m[y].right].parent == y
    ensures m' == Replace(Detach(m, y, m[y].right), z, y)
  {
    var m1 := Detach(m, y, m[y].right);
    var m2 := Replace(m1, z, y);
    forall w | w in m' ensures m'[w] == m2[w] {
      if w != y { assert w in m1; }
    }
  }

  /** What is known about the place of a successor below its base node. */
  lemma {:induction false} SpineItems(c: Ctx<Node>, t: Tree<Node>)
    requires OnSpine(c) && t.Branch?
    ensures PlugSpine(c, t).Branch? && Items(t) <= Items(PlugSpine(c, t))
    ensures c.InLeft? ==> c.item in Items(PlugSpine(c, t)) && NodeOf(PlugSpine(c, t)) in CtxItems(c)
    decreases c
  {
    if c.InLeft? { SpineItems(c.up, Wrap(c, t)); }
  }

  lemma {:induction false} TopOfSpine(c: Ctx<Node>, n: Node?, y: Node)
    requires OnSpine(c)
    ensures TopNode(c, n) == TopNode(Base(c).up, Base(c).item)
    ensures TopNode(Renamed(c, y), n) == TopNode(Base(c).up, y)
    decreases c
  {
    if c.InLeft? { TopOfSpine(c.up, c.item, y); }
  }

  lemma SuccessorSpliceable(m: Memory, c: Ctx<Node>, t: Tree<Node>)
    requires Pictures(m, c, t) && OnSpine(c) && Base(c).left.Branch? && t.Branch? && t.left.Leaf?
    ensures Spliceable(m, Base(c).item, t.item)
    ensures var z := Base(c).item; m[z].parent == HoleParent(Base(c).up)
    ensures m[t.item] == Link(null, NodeOf(t.right), c.item, t.color)
    ensures t.right.Branch? ==> m[t.right.item].parent == t.item
    ensures c.item == Base(c).item <==> c.InRight?
  {
    var b, k, r := Base(c), t.right, PlugSpine(c, t);
    SpinePictures(m, c, t);
    SpineItems(c, t);
    assert Distinct(Wrap(b, r)) && Linked(Wrap(b, r), HoleParent(b.up), m) && Linked(k, t.item, m);
    assert k.Branch? ==> k.item in Items(k) && k.item in Items(t);
    assert t.item in Items(t) && c.item in CtxItems(c) && c.item !in Items(t);
    assert b.left.item in Items(b.left);
    assert !b.up.Top? ==> b.up.item in CtxItems(b.up);
  }

  lemma SplicedPictures(m: Memory, m': Memory, c: Ctx<Node>, t: Tree<Node>)
    requires Pictures(m, c, t) && OnSpine(c) && Base(c).left.Branch? && t.Branch? && t.left.Leaf?
    requires Spliceable(m, Base(c).item, t.item) && Spliced(m, m', Base(c).item, t.item)
    ensures Pictures(m', Renamed(c, t.item), t.right)
  {
    hide Pictures;
    var b, y, k := Base(c), t.item, t.right;
    SuccessorSpliceable(m, c, t);
    SplicedIsDetachReplace(m, m', b.item, y);
    var m1 := Detach(m, y, NodeOf(k));
    DetachPictures(m, c, t);
    SpinePictures(m1, c, k);
    ReplacePictures(m1, b.up, Wrap(b, PlugSpine(c, k)), y);
    RenamedSpine(c, k, y, 0);
    SpinePictures(m', Renamed(c, y), k);
  }
}
