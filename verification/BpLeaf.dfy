/** Changes to a leaf, and to the root. */
module BpLeaf {
  import opened BpPairs
  import opened BpShape
  import opened BpUpdate
  import opened BpSplit

  ghost function Pairs(es: seq<Pair>): set<Pair> {
    set p | p in es
  }

  function LeafNode(root: bool, es: seq<Pair>): (n: Node)
    requires |es| <= FANOUT
  {
    Node(root, true, |es|, Padded(es, FANOUT))
  }

  lemma LeafNodeIs(root: bool, es: seq<Pair>)
    requires |es| <= FANOUT
    ensures var n := LeafNode(root, es); Shaped(n) && Entries(n) == es && Width(n) == |es| && n.root == root && n.leaf
  {
  }

  lemma LeafValid(nodes: Nodes, off: nat, root: bool, es: seq<Pair>, lo: nat, hi: nat, min: nat)
    requires |es| <= FANOUT && off in nodes && nodes[off] == LeafNode(root, es) && off != 0
    requires Within(es, lo, hi) && (root || |es| >= min)
    ensures Sub(nodes, off, 0, lo, hi, min, root) && Holds(nodes, off, 0) == Pairs(es) && Reach(nodes, off, 0) == {off}
    ensures Leaves(nodes, off, 0) == [off]
  {
    LeafNodeIs(root, es);
  }

  /** Rewriting the leaf at the end of a path with other entries for `key`. */
  lemma LeafUpdated(nodes: Nodes, at: Spot, min: nat, top: bool, es: seq<Pair>, c: Change)
    requires SubAt(nodes, at, 0, min, top) && c.dp == at.off && c.mid == [at.off] && |es| <= FANOUT && Within(es, at.lo, at.hi) && (top || |es| >= min)
    requires Pairs(es) == Without(Pairs(Entries(nodes[at.off])), c.key) + c.add
    ensures var nodes' := nodes[at.off := LeafNode(top, es)];
      Updated(nodes, nodes', at, 0, min, top, c) && OnlyIn(nodes, nodes', Reach(nodes, at.off, 0))
  {
    var nodes' := nodes[at.off := LeafNode(top, es)];
    SubKids(nodes, at.off, 0, at.lo, at.hi, min, top);
    NodeFacts(nodes, at.off, 0, at.lo, at.hi, min, top);
    hide Sub, Within, LeafNode, Entries, Without;
    LeafValid(nodes', at.off, top, es, at.lo, at.hi, min);
    assert SplicedAt([at.off], [at.off], c, [], []);
  }

  // ---------------------------------------------------------- pairs of one leaf

  lemma InsertedHolds(es: seq<Pair>, p: Pair)
    ensures forall q :: q in Inserted(es, p) <==> q in es || q == p
  {
    var i, r := Rank(es, p.key), Inserted(es, p);
    assert es == es[..i] + es[i..];
  }

  lemma PairsInserted(es: seq<Pair>, p: Pair, lo: nat, hi: nat)
    requires Within(es, lo, hi) && !HasKey(es, p.key) && lo < p.key <= hi
    ensures Within(Inserted(es, p), lo, hi) && Pairs(Inserted(es, p)) == Without(Pairs(es), p.key) + {p}
  {
    InsertedAscends(es, p);
    InsertedHolds(es, p);
    var r := Inserted(es, p);
    hide Inserted, Ascending;
    forall k | 0 <= k < |r| ensures lo < r[k].key <= hi {
      assert r[k] in r;
    }
  }

  lemma PairsReplaced(es: seq<Pair>, i: nat, item: nat, lo: nat, hi: nat)
    requires Within(es, lo, hi) && i < |es|
    ensures var p := Pair(es[i].key, item); var r := es[i := p];
      Within(r, lo, hi) && Pairs(r) == Without(Pairs(es), p.key) + {p}
  {
    var p := Pair(es[i].key, item);
    var r := es[i := p];
    assert forall k :: 0 <= k < |r| ==> r[k].key == es[k].key;
    assert r[i] == p;
    forall q | q in Pairs(r) ensures q in Without(Pairs(es), p.key) + {p} {
      var k :| 0 <= k < |r| && r[k] == q;
      assert k != i ==> es[k] == q;
    }
    forall q | q in Without(Pairs(es), p.key) ensures q in Pairs(r) {
      var k :| 0 <= k < |es| && es[k] == q;
      assert r[k] == q;
    }
  }

  lemma PairsRemoved(es: seq<Pair>, i: nat, lo: nat, hi: nat)
    requires Within(es, lo, hi) && i < |es|
    ensures var r := es[..i] + es[i + 1..];
      Within(r, lo, hi) && Pairs(r) == Without(Pairs(es), es[i].key) + {}
  {
    var r := es[..i] + es[i + 1..];
    assert forall k :: 0 <= k < |r| ==> r[k] == if k < i then es[k] else es[k + 1];
    forall q | q in Without(Pairs(es), es[i].key) ensures q in Pairs(r) {
      var k :| 0 <= k < |es| && es[k] == q;
      assert r[if k < i then k else k - 1] == q;
    }
  }

  lemma HalfPairs(es: seq<Pair>, lo: nat, hi: nat)
    requires |es| == FANOUT + 1 && Within(es, lo, hi)
    ensures var left, right, m, z := es[..HALF], es[HALF..], es[HALF - 1].key, es[FANOUT].key;
      && |left| == |right| == HALF && lo < m < z <= hi && Within(left, lo, m) && Within(right, m, hi) && Within(right, m, z)
      && Pairs(left) + Pairs(right) == Pairs(es)
  {
    var left, right, m, z := es[..HALF], es[HALF..], es[HALF - 1].key, es[FANOUT].key;
    Halves(es, lo, hi, 1, 0);
    assert forall q :: q in es <==> q in left || q in right;
    assert right[|right| - 1] == es[FANOUT];
    WithinAt(es, FANOUT, lo, hi);
    assert forall i :: 0 <= i < |right| ==> right[i].key <= z;
  }

  /** A full leaf with one pair too many becomes two leaves. */
  lemma LeafHalved(nodes: Nodes, at: Spot, min: nat, es: seq<Pair>, c: Change, r: nat)
    requires SubAt(nodes, at, 0, min, false) && c.dp == at.off && c.mid == [at.off, r] && min <= HALF && |es| == FANOUT + 1 && Within(es, at.lo, at.hi)
    requires Pairs(es) == Without(Pairs(Entries(nodes[at.off])), c.key) + c.add && r != 0 && r !in nodes
    ensures var nodes' := nodes[at.off := LeafNode(false, es[..HALF])][r := LeafNode(false, es[HALF..])];
      && Halved(nodes, nodes', at, 0, min, c, es[HALF - 1].key, r) && OnlyIn(nodes, nodes', Reach(nodes, at.off, 0))
      && Sub(nodes', r, 0, es[HALF - 1].key, es[FANOUT].key, min, false)
      && es[HALF - 1].key < es[FANOUT].key <= at.hi
  {
    hide Sub, Within, LeafNode, Entries, Without, Pairs;
    var left, right, m, z := es[..HALF], es[HALF..], es[HALF - 1].key, es[FANOUT].key;
    var nodes' := nodes[at.off := LeafNode(false, left)][r := LeafNode(false, right)];
    SubKids(nodes, at.off, 0, at.lo, at.hi, min, false);
    NodeFacts(nodes, at.off, 0, at.lo, at.hi, min, false);
    HalfPairs(es, at.lo, at.hi);
    LeafValid(nodes', at.off, false, left, at.lo, m, min);
    LeafValid(nodes', r, false, right, m, at.hi, min);
    LeafValid(nodes', r, false, right, m, z, min);
    HoldsLeaf(nodes, at, min, false);
    assert [at.off] + [r] == [at.off, r];
    assert SplicedAt([at.off], [at.off, r], c, [], []);
  }

  lemma HoldsLeaf(nodes: Nodes, at: Spot, min: nat, top: bool)
    requires SubAt(nodes, at, 0, min, top)
    ensures Holds(nodes, at.off, 0) == Pairs(Entries(nodes[at.off]))
  {
  }

  // ------------------------------------------------------------------ the root

  lemma TwoWithin(x: Pair, y: Pair)
    requires 0 < x.key < y.key <= MAX_KEY
    ensures Within([x, y], 0, MAX_KEY)
  {
  }

  /** A new root over two subtrees. */
  lemma NewRoot(nodes: Nodes, off: nat, x: Pair, y: Pair, h: nat, min: nat)
    requires off in nodes && off != 0 && nodes[off] == IndexNode(true, [x, y])
    requires Sub(nodes, x.item, h, 0, x.key, min, false) && Sub(nodes, y.item, h, x.key, MAX_KEY, min, false)
    requires Reach(nodes, x.item, h) !! Reach(nodes, y.item, h) && off !in Reach(nodes, x.item, h) + Reach(nodes, y.item, h)
    requires 0 < x.key < y.key <= MAX_KEY
    ensures Sub(nodes, off, h + 1, 0, MAX_KEY, min, true)
    ensures Holds(nodes, off, h + 1) == Holds(nodes, x.item, h) + Holds(nodes, y.item, h)
    ensures Reach(nodes, off, h + 1) == {off} + Reach(nodes, x.item, h) + Reach(nodes, y.item, h)
    ensures Leaves(nodes, off, h + 1) == Leaves(nodes, x.item, h) + Leaves(nodes, y.item, h)
  {
    hide Sub, Kids, Holds, HoldsAll, Reach, ReachAll, Within, IndexNode, Entries, Shaped, Leaves, LeavesAll;
    var es := [x, y];
    TwoWithin(x, y);
    IndexNodeIs(true, es);
    TwoKids(nodes, x, y, h, 0, MAX_KEY, min);
    IndexValid(nodes, off, es, h + 1, 0, MAX_KEY, min, true);
  }
}
