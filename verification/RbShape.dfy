/** Pure red-black shapes: trees, one-hole contexts, and the balance laws that
    the pointer code of rbtree.c has to maintain.

    The pointer code always works around one node while the rest of the tree
    stays put. A context is "the rest of the tree": the path from the hole up to
    the root together with the subtrees hanging off that path.
 */
module RbShape {
  import opened Sequences

  datatype Color = Red | Black

  datatype Tree<T> = Leaf | Branch(left: Tree<T>, item: T, color: Color, right: Tree<T>)

  datatype Ctx<T> =
    | Top
    | InLeft(item: T, color: Color, right: Tree<T>, up: Ctx<T>)
    | InRight(left: Tree<T>, item: T, color: Color, up: Ctx<T>)

  // ---------------------------------------------------------------- contents

  ghost function Inorder<T>(t: Tree<T>): seq<T> {
    match t
    case Leaf => []
    case Branch(l, x, _, r) => Inorder(l) + [x] + Inorder(r)
  }

  /** Items that precede the hole in order. */
  ghost function Before<T>(c: Ctx<T>): seq<T> {
    match c
    case Top => []
    case InLeft(_, _, _, up) => Before(up)
    case InRight(l, x, _, up) => Before(up) + Inorder(l) + [x]
  }

  /** Items that follow the hole in order. */
  ghost function After<T>(c: Ctx<T>): seq<T> {
    match c
    case Top => []
    case InLeft(x, _, r, up) => [x] + Inorder(r) + After(up)
    case InRight(_, _, _, up) => After(up)
  }

  /** One level of plugging: the subtree rooted at the node above the hole. */
  ghost function Wrap<T>(c: Ctx<T>, t: Tree<T>): (w: Tree<T>)
    requires !c.Top?
    ensures w.Branch? && w.item == c.item && w.color == c.color
  {
    match c
    case InLeft(x, col, r, _) => Branch(t, x, col, r)
    case InRight(l, x, col, _) => Branch(l, x, col, t)
  }

  ghost function Plug<T>(c: Ctx<T>, t: Tree<T>): Tree<T>
    decreases c
  {
    if c.Top? then t else Plug(c.up, Wrap(c, t))
  }

  ghost function Depth<T>(c: Ctx<T>): nat {
    if c.Top? then 0 else 1 + Depth(c.up)
  }

  /** The in-order contents of the whole tree around a focused subtree. */
  ghost function Whole<T>(c: Ctx<T>, t: Tree<T>): seq<T> {
    Before(c) + Inorder(t) + After(c)
  }

  lemma WholeWrap<T>(c: Ctx<T>, t: Tree<T>)
    requires !c.Top?
    ensures Whole(c, t) == Whole(c.up, Wrap(c, t))
  {
    match c
    case InLeft(x, col, r, up) =>
      assert Inorder(t) + ([x] + Inorder(r) + After(up)) == (Inorder(t) + [x] + Inorder(r)) + After(up);
    case InRight(l, x, col, up) =>
      assert (Before(up) + Inorder(l) + [x]) + Inorder(t) == Before(up) + (Inorder(l) + [x] + Inorder(t));
  }

  lemma EmptyInorder<T>(t: Tree<T>)
    ensures t.Leaf? <==> |Inorder(t)| == 0
  {
  }

  lemma Regroup<T>(a: seq<T>, b: seq<T>, x: T, d: seq<T>, e: seq<T>, s: seq<T>)
    requires s == a + (b + [x] + d) + e
    ensures var i := |a| + |b|;
      && i < |s| && s[i] == x && s[..i] == a + b && s[i + 1..] == d + e
      && s[..i] + s[i + 1..] == a + b + d + e
  {
    var i := |a| + |b|;
    assert s == (a + b) + [x] + (d + e);
    assert (a + b) + (d + e) == a + b + d + e;
  }

  /** Where the item of a focused subtree stands in the whole order. */
  lemma WholeAtItem<T>(c: Ctx<T>, t: Tree<T>)
    requires t.Branch?
    ensures var s, i := Whole(c, t), |Before(c)| + |Inorder(t.left)|;
      && i < |s| && s[i] == t.item && s[..i] == Before(c) + Inorder(t.left) && s[i + 1..] == Inorder(t.right) + After(c)
      && s[..i] + s[i + 1..] == Before(c) + Inorder(t.left) + Inorder(t.right) + After(c)
    ensures |Inorder(t)| == |Inorder(t.left)| + 1 + |Inorder(t.right)|
  {
    Regroup(Before(c), Inorder(t.left), t.item, Inorder(t.right), After(c), Whole(c, t));
  }

  lemma {:induction false} PlugInorder<T>(c: Ctx<T>, t: Tree<T>)
    ensures Inorder(Plug(c, t)) == Whole(c, t)
    decreases c
  {
    if !c.Top? {
      WholeWrap(c, t);
      PlugInorder(c.up, Wrap(c, t));
    }
  }

  // ------------------------------------------------------------ distinctness

  ghost function Items<T>(t: Tree<T>): set<T> {
    match t
    case Leaf => {}
    case Branch(l, x, _, r) => Items(l) + {x} + Items(r)
  }

  ghost function CtxItems<T>(c: Ctx<T>): set<T> {
    match c
    case Top => {}
    case InLeft(x, _, r, up) => CtxItems(up) + {x} + Items(r)
    case InRight(l, x, _, up) => CtxItems(up) + {x} + Items(l)
  }

  /** No item occurs twice. */
  ghost predicate Distinct<T>(t: Tree<T>) {
    match t
    case Leaf => true
    case Branch(l, x, _, r) =>
      Distinct(l) && Distinct(r) && x !in Items(l) && x !in Items(r) && Items(l) !! Items(r)
  }

  ghost predicate CtxDistinct<T>(c: Ctx<T>) {
    match c
    case Top => true
    case InLeft(x, _, r, up) =>
      CtxDistinct(up) && Distinct(r) && x !in Items(r) && x !in CtxItems(up) && Items(r) !! CtxItems(up)
    case InRight(l, x, _, up) =>
      CtxDistinct(up) && Distinct(l) && x !in Items(l) && x !in CtxItems(up) && Items(l) !! CtxItems(up)
  }

  /** Context and subtree together hold no item twice. */
  ghost predicate Apart<T>(c: Ctx<T>, t: Tree<T>) {
    Distinct(t) && CtxDistinct(c) && Items(t) !! CtxItems(c)
  }

  // ---------------------------------------------------------------- rotations

  ghost function Painted<T>(t: Tree<T>, col: Color): (r: Tree<T>)
    requires t.Branch?
    ensures r.Branch? && r.item == t.item && r.color == col && Inorder(r) == Inorder(t)
  {
    t.(color := col)
  }

  ghost function PaintedAbove<T>(c: Ctx<T>, col: Color): (r: Ctx<T>)
    requires !c.Top?
    ensures !r.Top? && r.item == c.item && r.color == col && r.up == c.up && r.InLeft? == c.InLeft?
  {
    match c
    case InLeft(x, _, r, up) => InLeft(x, col, r, up)
    case InRight(l, x, _, up) => InRight(l, x, col, up)
  }

  ghost function RotatedLeft<T>(t: Tree<T>): (r: Tree<T>)
    requires t.Branch? && t.right.Branch?
    ensures Inorder(r) == Inorder(t) && Items(r) == Items(t) && (Distinct(t) ==> Distinct(r))
  {
    assert Inorder(t) == Inorder(t.left) + [t.item] + Inorder(t.right.left) + [t.right.item] + Inorder(t.right.right);
    var low := Branch(t.left, t.item, t.color, t.right.left);
    assert Items(low) == Items(t.left) + {t.item} + Items(t.right.left);
    assert Items(t.right) == Items(t.right.left) + {t.right.item} + Items(t.right.right);
    assert Distinct(t) ==> Distinct(t.right) && Distinct(low);
    t.right.(left := low)
  }

  ghost function RotatedRight<T>(t: Tree<T>): (r: Tree<T>)
    requires t.Branch? && t.left.Branch?
    ensures Inorder(r) == Inorder(t) && Items(r) == Items(t) && (Distinct(t) ==> Distinct(r))
  {
    assert Inorder(t) == Inorder(t.left.left) + [t.left.item] + Inorder(t.left.right) + [t.item] + Inorder(t.right);
    var low := Branch(t.left.right, t.item, t.color, t.right);
    assert Items(low) == Items(t.left.right) + {t.item} + Items(t.right);
    assert Items(t.left) == Items(t.left.left) + {t.left.item} + Items(t.left.right);
    assert Distinct(t) ==> Distinct(t.left) && Distinct(low);
    t.left.(right := low)
  }

  lemma {:induction false} PlugApart<T>(c: Ctx<T>, t: Tree<T>)
    ensures Apart(c, t) <==> Distinct(Plug(c, t))
    ensures Items(Plug(c, t)) == CtxItems(c) + Items(t)
    decreases c
  {
    match c
    case Top =>
    case InLeft(x, col, r, up) =>
      PlugApart(up, Branch(t, x, col, r));
    case InRight(l, x, col, up) =>
      PlugApart(up, Branch(l, x, col, t));
  }

  lemma {:induction false} ItemsAreInorder<T>(t: Tree<T>, x: T)
    ensures x in Items(t) <==> x in Inorder(t)
  {
    match t
    case Leaf =>
    case Branch(l, y, _, r) => ItemsAreInorder(l, x); ItemsAreInorder(r, x);
  }

  lemma {:induction false} DistinctInorder<T>(t: Tree<T>)
    requires Distinct(t)
    ensures NoDuplicates(Inorder(t))
  {
    match t
    case Leaf =>
    case Branch(l, x, _, r) =>
      DistinctInorder(l); DistinctInorder(r);
      var a, b := Inorder(l), Inorder(r);
      var s := a + [x] + b;
      forall i, j | 0 <= i < j < |s| ensures s[i] != s[j] {
        ItemsAreInorder(l, s[i]);
        ItemsAreInorder(r, s[j]);
      }
  }

  /** Every item of a tree can be brought into focus. */
  lemma {:induction false} Focus<T>(c: Ctx<T>, t: Tree<T>, x: T) returns (c': Ctx<T>, t': Tree<T>)
    requires x in Items(t)
    ensures t'.Branch? && t'.item == x && Plug(c', t') == Plug(c, t)
    decreases t
  {
    match t
    case Branch(l, y, col, r) =>
      if x == y {
        c', t' := c, t;
      } else if x in Items(l) {
        c', t' := Focus(InLeft(y, col, r, c), l, x);
      } else {
        c', t' := Focus(InRight(l, y, col, c), r, x);
      }
  }

  // ------------------------------------------------------------ balance laws

  ghost predicate IsBlack<T>(t: Tree<T>) {
    t.Leaf? || t.color == Black
  }

  /** `t` has no red node with a red child, and every path from its root to a
      leaf crosses exactly `h` black nodes. */
  ghost predicate Balanced<T>(t: Tree<T>, h: int) {
    match t
    case Leaf => h == 0
    case Branch(l, _, Red, r) => Balanced(l, h) && Balanced(r, h) && IsBlack(l) && IsBlack(r)
    case Branch(l, _, Black, r) => Balanced(l, h - 1) && Balanced(r, h - 1)
  }

  ghost predicate RedBlack<T>(t: Tree<T>) {
    IsBlack(t) && exists h :: Balanced(t, h)
  }

  ghost predicate HoleBelowBlack<T>(c: Ctx<T>) {
    !c.Top? && c.color == Black
  }

  /** Filling the hole with a tree of black height `h` balances the whole tree,
      up to the colours of the hole's root and of the node above the hole. */
  ghost predicate Fits<T>(c: Ctx<T>, h: int) {
    match c
    case Top => true
    case InLeft(_, Red, r, up) => Balanced(r, h) && IsBlack(r) && HoleBelowBlack(up) && Fits(up, h)
    case InLeft(_, Black, r, up) => Balanced(r, h) && Fits(up, h + 1)
    case InRight(l, _, Red, up) => Balanced(l, h) && IsBlack(l) && HoleBelowBlack(up) && Fits(up, h)
    case InRight(l, _, Black, up) => Balanced(l, h) && Fits(up, h + 1)
  }

  lemma {:induction false} HeightNonNegative<T>(t: Tree<T>, h: int)
    requires Balanced(t, h)
    ensures h >= 0 && (h == 0 && IsBlack(t) ==> t.Leaf?)
  {
    match t
    case Leaf =>
    case Branch(l, _, Red, r) => HeightNonNegative(l, h);
    case Branch(l, _, Black, r) => HeightNonNegative(l, h - 1);
  }

  /** A fitting subtree in a fitting context makes a red-black tree. */
  lemma {:induction false} PlugBalanced<T>(c: Ctx<T>, t: Tree<T>, h: int)
    requires Fits(c, h) && Balanced(t, h)
    requires IsBlack(t) || HoleBelowBlack(c)
    ensures RedBlack(Plug(c, t))
    decreases c
  {
    match c
    case Top =>
    case InLeft(x, col, r, up) =>
      PlugBalanced(up, Branch(t, x, col, r), if col == Red then h else h + 1);
    case InRight(l, x, col, up) =>
      PlugBalanced(up, Branch(l, x, col, t), if col == Red then h else h + 1);
  }

  /** Conversely, every place of a red-black tree is a fitting context. */
  lemma {:induction false} UnplugBalanced<T>(c: Ctx<T>, t: Tree<T>) returns (h: int)
    requires RedBlack(Plug(c, t))
    ensures Fits(c, h) && Balanced(t, h)
    ensures IsBlack(t) || HoleBelowBlack(c)
    decreases c
  {
    match c
    case Top =>
      h :| Balanced(t, h);
    case InLeft(x, col, r, up) =>
      h := UnplugBalanced(up, Branch(t, x, col, r));
      if col == Black { h := h - 1; }
    case InRight(l, x, col, up) =>
      h := UnplugBalanced(up, Branch(l, x, col, t));
      if col == Black { h := h - 1; }
  }

  // ------------------------------------------------------------ height bound

  ghost function Height<T>(t: Tree<T>): nat {
    match t
    case Leaf => 0
    case Branch(l, _, _, r) => 1 + if Height(l) < Height(r) then Height(r) else Height(l)
  }

  ghost function Pow2(n: nat): nat {
    if n == 0 then 1 else 2 * Pow2(n - 1)
  }

  lemma {:induction false} Pow2Monotone(m: nat, n: nat)
    requires m <= n
    ensures 1 <= Pow2(m) <= Pow2(n)
    decreases n
  {
    if m < n { Pow2Monotone(m, n - 1); } else if n > 0 { Pow2Monotone(m - 1, n - 1); }
  }

  lemma {:induction false} BalancedSize<T>(t: Tree<T>, h: nat)
    requires Balanced(t, h)
    ensures Pow2(h) <= |Inorder(t)| + 1
    ensures Height(t) <= 2 * h + if IsBlack(t) then 0 else 1
  {
    match t
    case Leaf =>
    case Branch(l, _, Red, r) =>
      BalancedSize(l, h); BalancedSize(r, h);
    case Branch(l, _, Black, r) =>
      HeightNonNegative(l, h - 1);
      BalancedSize(l, h - 1); BalancedSize(r, h - 1);
  }

  /** The height of a red-black tree is at most twice the logarithm of its size
      plus one: 2^ceil(height/2) <= size + 1. */
  lemma {:induction false} HeightIsLogarithmic<T>(t: Tree<T>)
    requires RedBlack(t)
    ensures Pow2((Height(t) + 1) / 2) <= |Inorder(t)| + 1
  {
    var h :| Balanced(t, h);
    HeightNonNegative(t, h);
    BalancedSize(t, h);
    Pow2Monotone((Height(t) + 1) / 2, h);
  }

  // ------------------------------------------------- repairs after insertion

  /** Red node, red parent (a left child), red uncle: the recoloured grandparent. */
  ghost function LeftRecolor<T>(c: Ctx<T>, p: Tree<T>): (w: Tree<T>)
    requires c.InLeft? && p.Branch? && c.right.Branch?
    ensures w.Branch? && w.item == c.item && w.color == Red && Inorder(w) == Inorder(Wrap(c, p))
  {
    Branch(left := Painted(p, Black), item := c.item, color := Red, right := Painted(c.right, Black))
  }

  lemma LeftRecolorBalanced<T>(c: Ctx<T>, t: Tree<T>, h: int)
    requires t.Branch? && t.color == Red && Balanced(t, h) && Fits(c, h)
    requires !c.Top? && c.color == Red && c.up.InLeft? && !IsBlack(c.up.right)
    ensures Balanced(LeftRecolor(c.up, Wrap(c, t)), h + 1) && Fits(c.up.up, h + 1)
  {
  }

  /** Red node, red parent (a left child), black uncle: the rotated grandparent. */
  ghost function LeftRepair<T>(c: Ctx<T>, t: Tree<T>): (w: Tree<T>)
    requires t.Branch? && !c.Top? && c.up.InLeft?
    ensures w.Branch? && w.left.Branch? && w.right.Branch? && Inorder(w) == Inorder(Wrap(c.up, Wrap(c, t)))
  {
    var p := Painted(if c.InRight? then RotatedLeft(Wrap(c, t)) else Wrap(c, t), Black);
    var g := Wrap(c.up, p);
    assert Inorder(p) == Inorder(Wrap(c, t));
    assert Inorder(g) == Inorder(Wrap(c.up, Wrap(c, t)));
    RotatedRight(Painted(g, Red))
  }

  lemma LeftRepairBalanced<T>(c: Ctx<T>, t: Tree<T>, h: int)
    requires t.Branch? && t.color == Red && Balanced(t, h) && Fits(c, h)
    requires !c.Top? && c.color == Red && c.up.InLeft? && IsBlack(c.up.right)
    ensures var w := LeftRepair(c, t);
      && w.left.color == Red && Balanced(w.left, h)
      && Fits(InLeft(item := w.item, color := w.color, right := w.right, up := c.up.up), h)
  {
  }
  /** Red node, red parent (a right child), red uncle: the recoloured grandparent. */
  ghost function RightRecolor<T>(c: Ctx<T>, p: Tree<T>): (w: Tree<T>)
    requires c.InRight? && p.Branch? && c.left.Branch?
    ensures w.Branch? && w.item == c.item && w.color == Red && Inorder(w) == Inorder(Wrap(c, p))
  {
    Branch(right := Painted(p, Black), item := c.item, color := Red, left := Painted(c.left, Black))
  }

  lemma RightRecolorBalanced<T>(c: Ctx<T>, t: Tree<T>, h: int)
    requires t.Branch? && t.color == Red && Balanced(t, h) && Fits(c, h)
    requires !c.Top? && c.color == Red && c.up.InRight? && !IsBlack(c.up.left)
    ensures Balanced(RightRecolor(c.up, Wrap(c, t)), h + 1) && Fits(c.up.up, h + 1)
  {
  }

  /** Red node, red parent (a right child), black uncle: the rotated grandparent. */
  ghost function RightRepair<T>(c: Ctx<T>, t: Tree<T>): (w: Tree<T>)
    requires t.Branch? && !c.Top? && c.up.InRight?
    ensures w.Branch? && w.right.Branch? && w.left.Branch? && Inorder(w) == Inorder(Wrap(c.up, Wrap(c, t)))
  {
    var p := Painted(if c.InLeft? then RotatedRight(Wrap(c, t)) else Wrap(c, t), Black);
    var g := Wrap(c.up, p);
    assert Inorder(p) == Inorder(Wrap(c, t));
    assert Inorder(g) == Inorder(Wrap(c.up, Wrap(c, t)));
    RotatedLeft(Painted(g, Red))
  }

  lemma RightRepairBalanced<T>(c: Ctx<T>, t: Tree<T>, h: int)
    requires t.Branch? && t.color == Red && Balanced(t, h) && Fits(c, h)
    requires !c.Top? && c.color == Red && c.up.InRight? && IsBlack(c.up.left)
    ensures var w := RightRepair(c, t);
      && w.right.color == Red && Balanced(w.right, h)
      && Fits(InRight(item := w.item, color := w.color, left := w.left, up := c.up.up), h)
  {
  }

  // --------------------------------------------------- repairs after erasure

  /** Painted black, `t` would have black height h + 1 if it is red now; a black
      `t` has black height `h`, one too few for its place. */
  ghost predicate Deficient<T>(t: Tree<T>, h: int) {
    if t.Branch? && t.color == Red then Balanced(t.left, h) && Balanced(t.right, h) else Balanced(t, h)
  }

  lemma DeficientPainted<T>(c: Ctx<T>, t: Tree<T>, h: int)
    requires Deficient(t, h) && Fits(c, h + 1) && (c.Top? || !IsBlack(t))
    ensures RedBlack(Plug(c, if t.Branch? then Painted(t, Black) else t))
  {
    var t' := if t.Branch? then Painted(t, Black) else t;
    assert Balanced(t', if IsBlack(t) then h else h + 1);
    PlugBalanced(c, t', if IsBlack(t) then h else h + 1);
  }

  /** A red right sibling is rotated above the parent, which exposes a black one. */
  ghost function LeftRaised<T>(c: Ctx<T>): Ctx<T>
    requires c.InLeft? && c.right.Branch?
  {
    InLeft(item := c.item, color := Red, right := c.right.left,
           up := InLeft(item := c.right.item, color := Black, right := c.right.right, up := c.up))
  }

  lemma LeftRaisedFits<T>(c: Ctx<T>, t: Tree<T>, h: int)
    requires c.InLeft? && Fits(c, h + 1) && !IsBlack(c.right)
    ensures Fits(LeftRaised(c), h + 1) && IsBlack(LeftRaised(c).right)
    ensures Whole(LeftRaised(c), t) == Whole(c, t)
  {
    var c' := LeftRaised(c);
    var w := Wrap(c.(color := Red, right := Painted(c.right, Black)), t);
    assert Wrap(c'.up, Wrap(c', t)) == RotatedLeft(w);
    WholeWrap(c, t);
    WholeWrap(c', t);
    WholeWrap(c'.up, Wrap(c', t));
  }

  /** A black sibling with black children turns red; the deficit moves up. */
  lemma LeftDeficitMovesUp<T>(c: Ctx<T>, t: Tree<T>, h: int)
    requires c.InLeft? && c.right.Branch? && c.right.color == Black
    requires Balanced(t, h) && Fits(c, h + 1) && IsBlack(c.right.left) && IsBlack(c.right.right)
    ensures var w := Wrap(c.(right := Painted(c.right, Red)), t);
      var h' := if c.color == Red then h else h + 1;
      Deficient(w, h') && Fits(c.up, h' + 1) && Whole(c.up, w) == Whole(c, t)
  {
    WholeWrap(c.(right := Painted(c.right, Red)), t);
  }

  /** The sibling's red inner child is rotated above it. */
  ghost function LeftInnerRaised<T>(o: Tree<T>): (r: Tree<T>)
    requires o.Branch? && o.left.Branch?
    ensures r.Branch? && r.right.Branch? && Inorder(r) == Inorder(o)
  {
    var o' := Branch(left := Painted(o.left, Black), item := o.item, color := Red, right := o.right);
    assert Inorder(o') == Inorder(o);
    RotatedRight(o')
  }

  /** A black sibling with a red child repays the deficit. */
  ghost function LeftRepaid<T>(c: Ctx<T>, t: Tree<T>): (w: Tree<T>)
    requires c.InLeft? && c.right.Branch?
    requires if IsBlack(c.right.right) then c.right.left.Branch? else c.right.right.Branch?
    ensures Inorder(w) == Inorder(Wrap(c, t))
  {
    var o := if IsBlack(c.right.right) then LeftInnerRaised(c.right) else c.right;
    var o' := Branch(left := o.left, item := o.item, color := c.color, right := Painted(o.right, Black));
    assert Inorder(o') == Inorder(o);
    RotatedLeft(Wrap(c.(color := Black, right := o'), t))
  }

  lemma LeftRepaidBalanced<T>(c: Ctx<T>, t: Tree<T>, h: int)
    requires c.InLeft? && c.right.Branch? && c.right.color == Black
    requires Balanced(t, h) && Fits(c, h + 1) && !(IsBlack(c.right.left) && IsBlack(c.right.right))
    ensures RedBlack(Plug(c.up, LeftRepaid(c, t)))
  {
    var w, o := LeftRepaid(c, t), c.right;
    assert Balanced(o.left, h) && Balanced(o.right, h);
    if IsBlack(o.right) {
      var low := Branch(left := t, item := c.item, color := Black, right := o.left.left);
      var high := Branch(left := o.left.right, item := o.item, color := Black, right := o.right);
      assert w == Branch(left := low, item := o.left.item, color := c.color, right := high);
      assert Balanced(low, h + 1) && Balanced(high, h + 1);
    } else {
      var low := Branch(left := t, item := c.item, color := Black, right := o.left);
      var high := Painted(o.right, Black);
      assert w == Branch(left := low, item := o.item, color := c.color, right := high);
      assert Balanced(low, h + 1) && Balanced(high, h + 1);
    }
    PlugBalanced(c.up, w, if c.color == Red then h + 1 else h + 2);
  }

  /** A red left sibling is rotated above the parent, which exposes a black one. */
  ghost function RightRaised<T>(c: Ctx<T>): Ctx<T>
    requires c.InRight? && c.left.Branch?
  {
    InRight(item := c.item, color := Red, left := c.left.right,
           up := InRight(item := c.left.item, color := Black, left := c.left.left, up := c.up))
  }

  lemma RightRaisedFits<T>(c: Ctx<T>, t: Tree<T>, h: int)
    requires c.InRight? && Fits(c, h + 1) && !IsBlack(c.left)
    ensures Fits(RightRaised(c), h + 1) && IsBlack(RightRaised(c).left)
    ensures Whole(RightRaised(c), t) == Whole(c, t)
  {
    var c' := RightRaised(c);
    var w := Wrap(c.(color := Red, left := Painted(c.left, Black)), t);
    assert Wrap(c'.up, Wrap(c', t)) == RotatedRight(w);
    WholeWrap(c, t);
    WholeWrap(c', t);
    WholeWrap(c'.up, Wrap(c', t));
  }

  /** A black sibling with black children turns red; the deficit moves up. */
  lemma RightDeficitMovesUp<T>(c: Ctx<T>, t: Tree<T>, h: int)
    requires c.InRight? && c.left.Branch? && c.left.color == Black
    requires Balanced(t, h) && Fits(c, h + 1) && IsBlack(c.left.right) && IsBlack(c.left.left)
    ensures var w := Wrap(c.(left := Painted(c.left, Red)), t);
      var h' := if c.color == Red then h else h + 1;
      Deficient(w, h') && Fits(c.up, h' + 1) && Whole(c.up, w) == Whole(c, t)
  {
    WholeWrap(c.(left := Painted(c.left, Red)), t);
  }

  /** The sibling's red inner child is rotated above it. */
  ghost function RightInnerRaised<T>(o: Tree<T>): (r: Tree<T>)
    requires o.Branch? && o.right.Branch?
    ensures r.Branch? && r.left.Branch? && Inorder(r) == Inorder(o)
  {
    var o' := Branch(right := Painted(o.right, Black), item := o.item, color := Red, left := o.left);
    assert Inorder(o') == Inorder(o);
    RotatedLeft(o')
  }

  /** A black sibling with a red child repays the deficit. */
  ghost function RightRepaid<T>(c: Ctx<T>, t: Tree<T>): (w: Tree<T>)
    requires c.InRight? && c.left.Branch?
    requires if IsBlack(c.left.left) then c.left.right.Branch? else c.left.left.Branch?
    ensures Inorder(w) == Inorder(Wrap(c, t))
  {
    var o := if IsBlack(c.left.left) then RightInnerRaised(c.left) else c.left;
    var o' := Branch(right := o.right, item := o.item, color := c.color, left := Painted(o.left, Black));
    assert Inorder(o') == Inorder(o);
    RotatedRight(Wrap(c.(color := Black, left := o'), t))
  }

  lemma RightRepaidBalanced<T>(c: Ctx<T>, t: Tree<T>, h: int)
    requires c.InRight? && c.left.Branch? && c.left.color == Black
    requires Balanced(t, h) && Fits(c, h + 1) && !(IsBlack(c.left.right) && IsBlack(c.left.left))
    ensures RedBlack(Plug(c.up, RightRepaid(c, t)))
  {
    var w, o := RightRepaid(c, t), c.left;
    assert Balanced(o.right, h) && Balanced(o.left, h);
    if IsBlack(o.left) {
      var low := Branch(right := t, item := c.item, color := Black, left := o.right.right);
      var high := Branch(right := o.right.left, item := o.item, color := Black, left := o.left);
      assert w == Branch(right := low, item := o.right.item, color := c.color, left := high);
      assert Balanced(low, h + 1) && Balanced(high, h + 1);
    } else {
      var low := Branch(right := t, item := c.item, color := Black, left := o.right);
      var high := Painted(o.left, Black);
      assert w == Branch(right := low, item := o.item, color := c.color, left := high);
      assert Balanced(low, h + 1) && Balanced(high, h + 1);
    }
    PlugBalanced(c.up, w, if c.color == Red then h + 1 else h + 2);
  }

  lemma SiblingPresentLeft<T>(c: Ctx<T>, h: int)
    requires c.InLeft? && Fits(c, h + 1) && h >= 0
    ensures c.right.Branch?
  {
  }

  lemma SiblingPresentRight<T>(c: Ctx<T>, h: int)
    requires c.InRight? && Fits(c, h + 1) && h >= 0
    ensures c.left.Branch?
  {
  }

  // ------------------------------------------------------------- successors

  /** The hole is on the left spine of the right subtree of the base node. */
  ghost predicate OnSpine<T>(c: Ctx<T>) {
    c.InRight? || (c.InLeft? && OnSpine(c.up))
  }

  ghost function Base<T>(c: Ctx<T>): (b: Ctx<T>)
    requires OnSpine(c)
    ensures b.InRight?
  {
    if c.InRight? then c else Base(c.up)
  }

  /** Plugs only up to the base node. */
  ghost function PlugSpine<T>(c: Ctx<T>, t: Tree<T>): Tree<T>
    requires OnSpine(c)
    decreases c
  {
    if c.InRight? then t else PlugSpine(c.up, Wrap(c, t))
  }

  /** The same place, with another item as base node. */
  ghost function Renamed<T>(c: Ctx<T>, y: T): Ctx<T>
    requires OnSpine(c)
  {
    match c
    case InLeft(x, col, r, up) => InLeft(x, col, r, Renamed(up, y))
    case InRight(l, _, col, up) => InRight(l, y, col, up)
  }

  lemma {:induction false} RenamedSpine<T>(c: Ctx<T>, t: Tree<T>, y: T, h: int)
    requires OnSpine(c)
    ensures OnSpine(Renamed(c, y)) && Base(Renamed(c, y)) == Renamed(Base(c), y)
    ensures PlugSpine(Renamed(c, y), t) == PlugSpine(c, t)
    ensures HoleBelowBlack(Renamed(c, y)) == HoleBelowBlack(c) && Fits(Renamed(c, y), h) == Fits(c, h)
    ensures After(Renamed(c, y)) == After(c)
    ensures Before(c) == Before(Base(c).up) + Inorder(Base(c).left) + [Base(c).item]
    ensures Before(Renamed(c, y)) == Before(Base(c).up) + Inorder(Base(c).left) + [y]
    decreases c
  {
    if c.InLeft? {
      RenamedSpine(c.up, Wrap(c, t), y, if c.color == Red then h else h + 1);
    }
  }

  lemma DropMiddle<T>(a: seq<T>, b: seq<T>, x: T, y: T, w: seq<T>, z: seq<T>, r: seq<T>, s: seq<T>)
    requires (a + b + [x]) + ([] + [y] + w) + z == a + (b + [x] + r) + s
    ensures (a + b + [y]) + w + z == a + b + r + s
  {
    var n := |a| + |b| + 1;
    assert [y] + w + z == ((a + b + [x]) + ([] + [y] + w) + z)[n..];
    assert r + s == (a + (b + [x] + r) + s)[n..];
    assert (a + b + [y]) + w + z == (a + b) + ([y] + w + z);
  }

  /** Moving the successor into the place of its base node erases just the base node. */
  lemma MovedSuccessor<T>(c0: Ctx<T>, t0: Tree<T>, c: Ctx<T>, t: Tree<T>)
    requires t0.Branch? && t.Branch? && t.left.Leaf?
    requires OnSpine(c) && Base(c) == InRight(t0.left, t0.item, t0.color, c0) && Whole(c, t) == Whole(c0, t0)
    ensures Whole(Renamed(c, t.item), t.right) == Before(c0) + Inorder(t0.left) + Inorder(t0.right) + After(c0)
  {
    RenamedSpine(c, t.right, t.item, 0);
    assert Inorder(t.left) == [];
    assert Before(c) == Before(c0) + Inorder(t0.left) + [t0.item];
    DropMiddle(Before(c0), Inorder(t0.left), t0.item, t.item, Inorder(t.right), After(c), Inorder(t0.right), After(c0));
  }
}
