/** Splitting: one child becomes two, which may split the parent in turn. */
module BpSplit {
  import opened BpPairs
  import opened BpShape
  import opened BpUpdate

  /** The subtree at `at` has become two, at.off below key `a` and `r` above it; together
      they hold what it held, with the change `c` made. */
  ghost predicate Halved(nodes: Nodes, nodes': Nodes, at: Spot, h: nat, min: nat, c: Change, a: nat, r: nat) {
    && SubAt(nodes', Spot(at.off, at.lo, a), h, min, false) && SubAt(nodes', Spot(r, a, at.hi), h, min, false)
    && at.lo < a < at.hi && Reach(nodes', at.off, h) !! Reach(nodes', r, h)
    && Holds(nodes', at.off, h) + Holds(nodes', r, h) == Without(Holds(nodes, at.off, h), c.key) + c.add
    && Spliced(Leaves(nodes, at.off, h), Leaves(nodes', at.off, h) + Leaves(nodes', r, h), c)
    && ReachGrew(nodes, Reach(nodes, at.off, h), Reach(nodes', at.off, h) + Reach(nodes', r, h))
  }

  lemma WithinTwo(a: seq<Pair>, e: Pair, b: seq<Pair>, lo: nat, hi: nat, x: Pair, y: Pair)
    requires Within(a + [e] + b, lo, hi) && Bound(a, lo) < x.key < y.key <= hi && (b != [] ==> y.key <= e.key)
    ensures Within(a + [x, y] + b, lo, hi)
  {
    WithinParts(a, e, b, lo, hi);
    var c := a + [x, y] + b;
    var n := |a|;
    assert forall i :: 0 <= i < |c| ==> c[i] == if i < n then a[i] else if i == n then x else if i == n + 1 then y else b[i - n - 2];
    assert forall i :: 0 <= i < |a| ==> a[i].key <= Bound(a, lo);
  }

  lemma TwoKids(nodes: Nodes, x: Pair, y: Pair, h: nat, lo: nat, hi: nat, min: nat)
    requires Sub(nodes, x.item, h, lo, x.key, min, false) && Sub(nodes, y.item, h, x.key, hi, min, false)
    requires Reach(nodes, x.item, h) !! Reach(nodes, y.item, h)
    ensures Kids(nodes, [x, y], h, lo, hi, min) && Bound([x, y], 0) == y.key
    ensures ReachAll(nodes, [x, y], h) == Reach(nodes, x.item, h) + Reach(nodes, y.item, h)
    ensures HoldsAll(nodes, [x, y], h) == Holds(nodes, x.item, h) + Holds(nodes, y.item, h)
    ensures LeavesAll(nodes, [x, y], h) == Leaves(nodes, x.item, h) + Leaves(nodes, y.item, h)
  {
    hide Sub, Kids, Reach, ReachAll, Holds, HoldsAll, Leaves, LeavesAll;
    LoneKid(nodes, x, h, lo, x.key, min);
    LoneKid(nodes, y, h, x.key, hi, min);
    assert [x] + [y] == [x, y];
    KidsJoin(nodes, [x], [y], h, lo, hi, min);
    AllJoin(nodes, [x], [y], h);
  }

  /** Child `e` has been halved into `x` and `y`. */
  lemma ChildHalved(nodes: Nodes, nodes': Nodes, a: seq<Pair>, e: Pair, b: seq<Pair>, h: nat, lo: nat, hi: nat, min: nat,
                    c: Change, x: Pair, y: Pair)
    requires Kids(nodes, a + [e] + b, h, lo, hi, min) && Within(a + [e] + b, lo, hi)
    requires Bound(a, lo) < c.key && (b != [] ==> c.key <= e.key)
    requires Halved(nodes, nodes', Spot(e.item, Bound(a, lo), if b == [] then hi else e.key), h, min, c, x.key, y.item)
    requires x.item == e.item && x.key < y.key <= (if b == [] then hi else e.key)
    requires b != [] ==> Sub(nodes', y.item, h, x.key, y.key, min, false)
    requires OnlyIn(nodes, nodes', Reach(nodes, e.item, h))
    ensures Kids(nodes', a + [x, y] + b, h, lo, hi, min) && Within(a + [x, y] + b, lo, hi)
    ensures HoldsAll(nodes', a + [x, y] + b, h) == Without(HoldsAll(nodes, a + [e] + b, h), c.key) + c.add
    ensures Spliced(LeavesAll(nodes, a + [e] + b, h), LeavesAll(nodes', a + [x, y] + b, h), c)
    ensures ReachGrew(nodes, ReachAll(nodes, a + [e] + b, h), ReachAll(nodes', a + [x, y] + b, h))
    ensures Reach(nodes, e.item, h) <= ReachAll(nodes, a + [e] + b, h)
  {
    var was, now := Reach(nodes, e.item, h), Reach(nodes', x.item, h) + Reach(nodes', y.item, h);
    hide Sub, Kids, Holds, HoldsAll, Reach, ReachAll, Within, Bound, SameOn, OnlyIn, Without, Leaves, LeavesAll, Spliced;
    WithinParts(a, e, b, lo, hi);
    WithinTwo(a, e, b, lo, hi, x, y);
    KidsParts(nodes, a, e, b, h, lo, hi, min);
    OthersUntouched(nodes, nodes', a, h, was, now);
    OthersUntouched(nodes, nodes', b, h, was, now);
    TwoKids(nodes', x, y, h, Bound(a, lo), if b == [] then hi else y.key, min);
    ChildReplaced(nodes, nodes', a, e, [x, y], b, h, lo, hi, min);
    OthersWithout(nodes, a, e, b, h, lo, hi, min, c.key);
    WithoutJoin(HoldsAll(nodes, a, h), Holds(nodes, e.item, h), HoldsAll(nodes, b, h), c.key, c.add);
    SplicedMore(Leaves(nodes, e.item, h), Leaves(nodes', x.item, h) + Leaves(nodes', y.item, h), c,
                LeavesAll(nodes, a, h), LeavesAll(nodes, b, h));
  }

  // --------------------------------------------------------- writing the parent

  function IndexNode(root: bool, es: seq<Pair>): (n: Node)
    requires 1 <= |es| <= FANOUT
  {
    Node(root, false, |es| - 1, Padded(es, FANOUT))
  }

  lemma IndexNodeIs(root: bool, es: seq<Pair>)
    requires 1 <= |es| <= FANOUT
    ensures var n := IndexNode(root, es); Shaped(n) && Entries(n) == es && Width(n) == |es| && n.root == root && !n.leaf
  {
  }

  /** The entries of the node at `at` are to become `es`, the children already are there. */
  ghost predicate NewEntries(nodes: Nodes, nodes': Nodes, at: Spot, h: nat, min: nat, c: Change, es: seq<Pair>)
    requires h >= 1
  {
    && Kids(nodes', es, h - 1, at.lo, at.hi, min) && Within(es, at.lo, at.hi)
    && HoldsAll(nodes', es, h - 1) == Without(Holds(nodes, at.off, h), c.key) + c.add
    && Spliced(Leaves(nodes, at.off, h), LeavesAll(nodes', es, h - 1), c)
    && ReachGrew(nodes, Reach(nodes, at.off, h) - {at.off}, ReachAll(nodes', es, h - 1))
    && at.off in nodes && at.off != 0
    && OnlyIn(nodes, nodes', Reach(nodes, at.off, h))
  }

  /** The child on the path of `key` was halved: the entries its parent needs. */
  lemma ParentEntries(nodes: Nodes, nodes': Nodes, at: Spot, h: nat, min: nat, top: bool, c: Change, x: Pair, y: Pair)
      returns (a: seq<Pair>, e: Pair, b: seq<Pair>)
    requires SubAt(nodes, at, h, min, top) && h > 0 && at.lo < c.key <= at.hi
    requires var s := Below(nodes, at, c.key);
      && Halved(nodes, nodes', s, h - 1, min, c, x.key, y.item) && OnlyIn(nodes, nodes', Reach(nodes, s.off, h - 1))
      && x.item == s.off && x.key < y.key <= s.hi && (s.hi < at.hi ==> Sub(nodes', y.item, h - 1, x.key, y.key, min, false))
    ensures Entries(nodes[at.off]) == a + [e] + b && e.item == x.item && |a| == Route(Entries(nodes[at.off]), c.key)
    ensures NewEntries(nodes, nodes', at, h, min, c, a + [x, y] + b) && Within(a + [e] + b, at.lo, at.hi)
    ensures Bound(a, at.lo) < x.key && (b != [] ==> y.key <= e.key)
  {
    hide Sub, Kids, Holds, HoldsAll, Reach, ReachAll, Entries, Within, Shaped, WideEnough, Below, Bound, Without, Leaves, LeavesAll, Spliced;
    NodeFacts(nodes, at.off, h, at.lo, at.hi, min, top);
    SubKids(nodes, at.off, h, at.lo, at.hi, min, top);
    a, e, b := BelowIsChild(nodes, at, h, min, top, c.key);
    hide Route;
    if b != [] { WithinParts(a, e, b, at.lo, at.hi); LastBelow(a, e, b, at.lo, at.hi); }
    ChildHalved(nodes, nodes', a, e, b, h - 1, at.lo, at.hi, min, c, x, y);
  }

  /** A child that is not the last one has a bound below the node's own. */
  lemma LastBelow(a: seq<Pair>, e: Pair, b: seq<Pair>, lo: nat, hi: nat)
    requires Within(a + [e] + b, lo, hi) && b != []
    ensures e.key < hi
  {
    var c := a + [e] + b;
    assert c[|a|] == e && c[|a| + 1] == b[0];
  }

  /** Nodes outside a forest may be written. */
  lemma KidsKept(nodes: Nodes, nodes': Nodes, off: nat, n: Node, es: seq<Pair>, h: nat, lo: nat, hi: nat, min: nat)
    requires Kids(nodes, es, h, lo, hi, min) && off !in ReachAll(nodes, es, h) && nodes' == nodes[off := n]
    ensures Kids(nodes', es, h, lo, hi, min) && ReachAll(nodes', es, h) == ReachAll(nodes, es, h)
    ensures HoldsAll(nodes', es, h) == HoldsAll(nodes, es, h) && LeavesAll(nodes', es, h) == LeavesAll(nodes, es, h)
  {
    hide Kids, ReachAll, HoldsAll, LeavesAll;
    KidsFrame(nodes, nodes', es, h, lo, hi, min);
  }

  /** The new entries fit into the node. */
  lemma NoOverflow(nodes: Nodes, nodes': Nodes, at: Spot, h: nat, min: nat, top: bool, c: Change, es: seq<Pair>)
    requires h >= 1 && NewEntries(nodes, nodes', at, h, min, c, es) && |es| <= FANOUT && WideEnough(|es|, h, min, top) && |es| >= 1
    requires at.off in Reach(nodes, at.off, h)
    ensures var nodes2 := nodes'[at.off := IndexNode(top, es)];
      Updated(nodes, nodes2, at, h, min, top, c) && OnlyIn(nodes, nodes2, Reach(nodes, at.off, h))
  {
    hide Sub, Kids, Holds, HoldsAll, Reach, ReachAll, Within, Without, IndexNode, Entries, Shaped, WideEnough, Leaves, LeavesAll, Spliced;
    var nodes2 := nodes'[at.off := IndexNode(top, es)];
    IndexNodeIs(top, es);
    KidsKept(nodes', nodes2, at.off, IndexNode(top, es), es, h - 1, at.lo, at.hi, min);
    IndexValid(nodes2, at.off, es, h, at.lo, at.hi, min, top);
  }

  lemma Halves(es: seq<Pair>, lo: nat, hi: nat, h: nat, min: nat)
    requires |es| == FANOUT + 1 && Within(es, lo, hi) && h >= 1
    ensures var left, right, m := es[..HALF], es[HALF..], es[HALF - 1].key;
      && left + right == es && Bound(left, lo) == m && |left| == |right| == HALF && lo < m < hi
      && Within(left, lo, m) && Within(right, m, hi) && WideEnough(HALF, h, min, false)
  {
    var left, right, m := es[..HALF], es[HALF..], es[HALF - 1].key;
    assert left + right == es && left[|left| - 1] == es[HALF - 1];
    assert es[HALF..|es|] == right && es[0..HALF] == left;
    hide Within;
    WithinSlice(es, 0, HALF, lo, hi);
    WithinSlice(es, HALF, |es|, lo, hi);
    WithinAt(es, HALF - 1, lo, hi);
    WithinAt(es, HALF, lo, hi);
  }

  /** The new entries do not fit: half of them go to the new node `r`. */
  lemma Overflow(nodes: Nodes, nodes': Nodes, at: Spot, h: nat, min: nat, c: Change, es: seq<Pair>, r: nat)
    requires h >= 1 && NewEntries(nodes, nodes', at, h, min, c, es) && |es| == FANOUT + 1
    requires at.off in Reach(nodes, at.off, h) && r != 0 && r !in nodes'
    ensures var nodes2 := nodes'[at.off := IndexNode(false, es[..HALF])][r := IndexNode(false, es[HALF..])];
      && Halved(nodes, nodes2, at, h, min, c, es[HALF - 1].key, r)
      && OnlyIn(nodes, nodes2, Reach(nodes, at.off, h))
  {
    hide Sub, Kids, Holds, HoldsAll, Reach, ReachAll, Within, Without, IndexNode, Entries, Shaped, WideEnough, Bound, Leaves, LeavesAll, Spliced;
    var left, right, m := es[..HALF], es[HALF..], es[HALF - 1].key;
    var nodes2 := nodes'[at.off := IndexNode(false, left)][r := IndexNode(false, right)];
    Halves(es, at.lo, at.hi, h, min);
    IndexNodeIs(false, left);
    IndexNodeIs(false, right);
    AllReachExist(nodes', es, h - 1);
    KidsFrame(nodes', nodes2, es, h - 1, at.lo, at.hi, min);
    KidsSplit(nodes2, left, right, h - 1, at.lo, at.hi, min);
    AllJoin(nodes2, left, right, h - 1);
    IndexValid(nodes2, at.off, left, h, at.lo, m, min, false);
    IndexValid(nodes2, r, right, h, m, at.hi, min, false);
  }
}
