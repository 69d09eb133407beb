/** The shape of the directory B+tree: every subtree lies in the interval its parent routes
    to it, all leaves at one depth. */
module BpShape {
  import opened BpPairs

  /** A node; a leaf holds `num` pairs, an index node num + 1 of them. */
  datatype Node = Node(root: bool, leaf: bool, num: nat, pairs: seq<Pair>)

  type Nodes = map<nat, Node>

  function Width(n: Node): nat {
    if n.leaf then n.num else n.num + 1
  }

  /** The pairs in use. */
  ghost function Entries(n: Node): seq<Pair> {
    if Width(n) <= |n.pairs| then n.pairs[..Width(n)] else []
  }

  ghost predicate Shaped(n: Node) {
    Width(n) <= FANOUT && |n.pairs| == FANOUT && n.pairs == Padded(n.pairs[..Width(n)], FANOUT)
  }

  ghost function Reach(nodes: Nodes, off: nat, h: nat): set<nat>
    decreases h, 0
  {
    if off !in nodes then {}
    else if h == 0 then {off}
    else {off} + ReachAll(nodes, Entries(nodes[off]), h - 1)
  }

  ghost function ReachAll(nodes: Nodes, es: seq<Pair>, h: nat): set<nat>
    decreases h, 1
  {
    set i, x | 0 <= i < |es| && x in Reach(nodes, es[i].item, h) :: x
  }

  /** The pairs stored in the leaves of a subtree. */
  ghost function Holds(nodes: Nodes, off: nat, h: nat): set<Pair>
    decreases h, 0
  {
    if off !in nodes then {}
    else if h == 0 then (set p | p in Entries(nodes[off]))
    else HoldsAll(nodes, Entries(nodes[off]), h - 1)
  }

  ghost function HoldsAll(nodes: Nodes, es: seq<Pair>, h: nat): set<Pair>
    decreases h, 1
  {
    set i, p | 0 <= i < |es| && p in Holds(nodes, es[i].item, h) :: p
  }

  /** The leaves of a subtree, from left to right. */
  ghost function Leaves(nodes: Nodes, off: nat, h: nat): seq<nat>
    decreases h, 0, 0
  {
    if off !in nodes then []
    else if h == 0 then [off]
    else LeavesAll(nodes, Entries(nodes[off]), h - 1)
  }

  ghost function LeavesAll(nodes: Nodes, es: seq<Pair>, h: nat): seq<nat>
    decreases h, 1, |es|
  {
    if es == [] then [] else Leaves(nodes, es[0].item, h) + LeavesAll(nodes, es[1..], h)
  }

  ghost predicate Within(es: seq<Pair>, lo: nat, hi: nat) {
    Ascending(es) && forall i :: 0 <= i < |es| ==> lo < es[i].key <= hi
  }

  /** Bounds of the i-th child; the last key of an index node is advisory. */
  ghost function Low(es: seq<Pair>, i: nat, lo: nat): nat
    requires i < |es|
  {
    if i == 0 then lo else es[i - 1].key
  }

  ghost function High(es: seq<Pair>, i: nat, hi: nat): nat
    requires i < |es|
  {
    if i == |es| - 1 then hi else es[i].key
  }

  /** Fewest pairs in a node: a root may be nearly empty, other index nodes are at least
      half full, leaves hold at least `min` pairs. */
  ghost predicate WideEnough(w: nat, h: nat, min: nat, top: bool) {
    if top then h == 0 || w >= 2 else if h == 0 then w >= min else w >= HALF
  }

  /** A valid subtree of height `h` for the keys in (lo, hi]. */
  ghost predicate Sub(nodes: Nodes, off: nat, h: nat, lo: nat, hi: nat, min: nat, top: bool)
    decreases h, 0
  {
    && off in nodes && off != 0 && Shaped(nodes[off]) && nodes[off].root == top && nodes[off].leaf == (h == 0)
    && WideEnough(Width(nodes[off]), h, min, top) && Within(Entries(nodes[off]), lo, hi)
    && (h > 0 ==> Kids(nodes, Entries(nodes[off]), h - 1, lo, hi, min) && off !in ReachAll(nodes, Entries(nodes[off]), h - 1))
  }

  ghost predicate Kids(nodes: Nodes, es: seq<Pair>, h: nat, lo: nat, hi: nat, min: nat)
    decreases h, 2
  {
    AllSub(nodes, es, h, lo, hi, min) && Apart(nodes, es, h)
  }

  ghost predicate AllSub(nodes: Nodes, es: seq<Pair>, h: nat, lo: nat, hi: nat, min: nat)
    decreases h, 1
  {
    forall i :: 0 <= i < |es| ==> Sub(nodes, es[i].item, h, Low(es, i, lo), High(es, i, hi), min, false)
  }

  /** No node belongs to two of the subtrees. */
  ghost predicate Apart(nodes: Nodes, es: seq<Pair>, h: nat) {
    forall i, j :: 0 <= i < j < |es| ==> Reach(nodes, es[i].item, h) !! Reach(nodes, es[j].item, h)
  }

  ghost predicate SameOn(nodes: Nodes, nodes': Nodes, s: set<nat>) {
    forall x :: x in s && x in nodes ==> x in nodes' && nodes'[x] == nodes[x]
  }

  /** A subtree is not affected by changes elsewhere. */
  lemma {:induction false} Frame(nodes: Nodes, nodes': Nodes, off: nat, h: nat, lo: nat, hi: nat, min: nat, top: bool)
    requires Sub(nodes, off, h, lo, hi, min, top) && SameOn(nodes, nodes', Reach(nodes, off, h))
    ensures Sub(nodes', off, h, lo, hi, min, top) && Reach(nodes', off, h) == Reach(nodes, off, h)
    ensures Holds(nodes', off, h) == Holds(nodes, off, h) && Leaves(nodes', off, h) == Leaves(nodes, off, h)
    decreases h, 0
  {
    if h > 0 {
      var es := Entries(nodes[off]);
      assert Kids(nodes, es, h - 1, lo, hi, min);
      KidsFrame(nodes, nodes', es, h - 1, lo, hi, min);
    }
  }

  lemma {:induction false} KidsFrame(nodes: Nodes, nodes': Nodes, es: seq<Pair>, h: nat, lo: nat, hi: nat, min: nat)
    requires Kids(nodes, es, h, lo, hi, min) && SameOn(nodes, nodes', ReachAll(nodes, es, h))
    ensures Kids(nodes', es, h, lo, hi, min) && ReachAll(nodes', es, h) == ReachAll(nodes, es, h)
    ensures HoldsAll(nodes', es, h) == HoldsAll(nodes, es, h) && LeavesAll(nodes', es, h) == LeavesAll(nodes, es, h)
    decreases h, 1
  {
    hide Sub, Reach, Holds, Leaves, LeavesAll;
    forall i | 0 <= i < |es|
      ensures Sub(nodes', es[i].item, h, Low(es, i, lo), High(es, i, hi), min, false)
      ensures Reach(nodes', es[i].item, h) == Reach(nodes, es[i].item, h)
      ensures Holds(nodes', es[i].item, h) == Holds(nodes, es[i].item, h)
      ensures Leaves(nodes', es[i].item, h) == Leaves(nodes, es[i].item, h)
    {
      assert Reach(nodes, es[i].item, h) <= ReachAll(nodes, es, h);
      Frame(nodes, nodes', es[i].item, h, Low(es, i, lo), High(es, i, hi), min, false);
    }
    SameLeaves(nodes, nodes', es, h);
  }

  lemma {:induction false} SameLeaves(nodes: Nodes, nodes': Nodes, es: seq<Pair>, h: nat)
    requires forall i :: 0 <= i < |es| ==> Leaves(nodes', es[i].item, h) == Leaves(nodes, es[i].item, h)
    ensures LeavesAll(nodes', es, h) == LeavesAll(nodes, es, h)
    decreases |es|
  {
    hide Leaves;
    if es != [] {
      assert forall i :: 0 <= i < |es| - 1 ==> es[1..][i] == es[i + 1];
      SameLeaves(nodes, nodes', es[1..], h);
    }
  }

  /** The interval of a subtree may be extended downwards. */
  lemma {:induction false} Widen(nodes: Nodes, off: nat, h: nat, lo: nat, lo': nat, hi: nat, min: nat, top: bool)
    requires Sub(nodes, off, h, lo, hi, min, top) && lo' <= lo
    ensures Sub(nodes, off, h, lo', hi, min, top)
    decreases h, 0
  {
    if h > 0 {
      var es := Entries(nodes[off]);
      assert Kids(nodes, es, h - 1, lo, hi, min);
      WidenKids(nodes, es, h - 1, lo, lo', hi, min);
    }
  }

  lemma {:induction false} WidenKids(nodes: Nodes, es: seq<Pair>, h: nat, lo: nat, lo': nat, hi: nat, min: nat)
    requires Kids(nodes, es, h, lo, hi, min) && lo' <= lo
    ensures Kids(nodes, es, h, lo', hi, min)
    decreases h, 1
  {
    hide Sub, Reach;
    forall i | 0 <= i < |es| ensures Sub(nodes, es[i].item, h, Low(es, i, lo'), High(es, i, hi), min, false) {
      if i == 0 { Widen(nodes, es[0].item, h, lo, lo', High(es, 0, hi), min, false); }
    }
  }

  lemma ChildBounds(es: seq<Pair>, i: nat, lo: nat, hi: nat)
    requires Within(es, lo, hi) && i < |es|
    ensures lo <= Low(es, i, lo) <= High(es, i, hi) <= hi && Low(es, i, lo) < es[i].key
  {
  }

  /** What validity says about the children of a node. */
  lemma SubKids(nodes: Nodes, off: nat, h: nat, lo: nat, hi: nat, min: nat, top: bool)
    requires Sub(nodes, off, h, lo, hi, min, top)
    ensures off in nodes && Within(Entries(nodes[off]), lo, hi) && |Entries(nodes[off])| == Width(nodes[off])
    ensures h > 0 ==> |Entries(nodes[off])| >= 2 && Holds(nodes, off, h) == HoldsAll(nodes, Entries(nodes[off]), h - 1)
    ensures h > 0 ==> Kids(nodes, Entries(nodes[off]), h - 1, lo, hi, min)
    ensures h > 0 ==> Reach(nodes, off, h) == {off} + ReachAll(nodes, Entries(nodes[off]), h - 1)
    ensures h > 0 ==> off !in ReachAll(nodes, Entries(nodes[off]), h - 1)
    ensures h == 0 ==> Holds(nodes, off, h) == set p | p in Entries(nodes[off])
    ensures Leaves(nodes, off, h) == if h == 0 then [off] else LeavesAll(nodes, Entries(nodes[off]), h - 1)
  {
  }

  lemma HeldByKid(nodes: Nodes, es: seq<Pair>, h: nat, p: Pair) returns (i: nat)
    requires p in HoldsAll(nodes, es, h)
    ensures i < |es| && p in Holds(nodes, es[i].item, h)
  {
    i :| 0 <= i < |es| && p in Holds(nodes, es[i].item, h);
  }

  lemma KidValid(nodes: Nodes, es: seq<Pair>, h: nat, lo: nat, hi: nat, min: nat, i: nat)
    requires Kids(nodes, es, h, lo, hi, min) && i < |es|
    ensures Sub(nodes, es[i].item, h, Low(es, i, lo), High(es, i, hi), min, false)
  {
  }

  lemma InLeaf(es: seq<Pair>, lo: nat, hi: nat, p: Pair)
    requires Within(es, lo, hi) && p in es
    ensures lo < p.key <= hi
  {
  }

  lemma {:induction false} HeldWithin(nodes: Nodes, off: nat, h: nat, lo: nat, hi: nat, min: nat, top: bool, p: Pair)
    requires Sub(nodes, off, h, lo, hi, min, top) && p in Holds(nodes, off, h)
    ensures lo < p.key <= hi
    decreases h
  {
    hide *;
    SubKids(nodes, off, h, lo, hi, min, top);
    var es := Entries(nodes[off]);
    if h == 0 {
      InLeaf(es, lo, hi, p);
    } else {
      var i := HeldByKid(nodes, es, h - 1, p);
      KidValid(nodes, es, h - 1, lo, hi, min, i);
      ChildBounds(es, i, lo, hi);
      HeldWithin(nodes, es[i].item, h - 1, Low(es, i, lo), High(es, i, hi), min, false, p);
    }
  }

  /** The root of a subtree is one of its nodes. */
  lemma SelfReached(nodes: Nodes, off: nat, h: nat)
    requires off in nodes
    ensures off in Reach(nodes, off, h)
  {
  }

  // ------------------------------------------------------------------- routing

  /** The child of an index node with entries `es` that `key` belongs to. */
  ghost function Route(es: seq<Pair>, key: nat): (j: nat)
    requires |es| > 0
    ensures j < |es|
  {
    Rank(es[..|es| - 1], key)
  }

  lemma RouteBounds(es: seq<Pair>, key: nat, lo: nat, hi: nat)
    requires |es| > 0 && Within(es, lo, hi) && lo < key <= hi
    ensures var j := Route(es, key); Low(es, j, lo) < key <= High(es, j, hi)
    ensures forall i :: 0 <= i < |es| && i != Route(es, key) ==> !(Low(es, i, lo) < key <= High(es, i, hi))
  {
    var s := es[..|es| - 1];
    RankSplits(s, key);
    assert forall i :: 0 <= i < |s| ==> s[i] == es[i];
  }

  // ------------------------------------------------- cutting and joining children

  /** The upper bound of the last of the children `es`, when others follow. */
  ghost function Bound(es: seq<Pair>, lo: nat): nat {
    if es == [] then lo else es[|es| - 1].key
  }

  lemma {:induction false} LeavesJoin(nodes: Nodes, a: seq<Pair>, b: seq<Pair>, h: nat)
    ensures LeavesAll(nodes, a + b, h) == LeavesAll(nodes, a, h) + LeavesAll(nodes, b, h)
    decreases |a|
  {
    hide Leaves;
    if a == [] {
      assert a + b == b;
    } else {
      assert (a + b)[1..] == a[1..] + b;
      LeavesJoin(nodes, a[1..], b, h);
    }
  }

  lemma AllJoin(nodes: Nodes, a: seq<Pair>, b: seq<Pair>, h: nat)
    ensures ReachAll(nodes, a + b, h) == ReachAll(nodes, a, h) + ReachAll(nodes, b, h)
    ensures HoldsAll(nodes, a + b, h) == HoldsAll(nodes, a, h) + HoldsAll(nodes, b, h)
    ensures LeavesAll(nodes, a + b, h) == LeavesAll(nodes, a, h) + LeavesAll(nodes, b, h)
  {
    hide Reach, Holds, Leaves, LeavesAll;
    LeavesJoin(nodes, a, b, h);
    var c := a + b;
    assert forall i :: 0 <= i < |a| ==> c[i] == a[i];
    assert forall i :: 0 <= i < |b| ==> c[i + |a|] == b[i];
    forall x | x in ReachAll(nodes, c, h) ensures x in ReachAll(nodes, a, h) + ReachAll(nodes, b, h) {
      var i :| 0 <= i < |c| && x in Reach(nodes, c[i].item, h);
      assert i >= |a| ==> c[i] == b[i - |a|];
    }
    forall p | p in HoldsAll(nodes, c, h) ensures p in HoldsAll(nodes, a, h) + HoldsAll(nodes, b, h) {
      var i :| 0 <= i < |c| && p in Holds(nodes, c[i].item, h);
      assert i >= |a| ==> c[i] == b[i - |a|];
    }
    forall x | x in ReachAll(nodes, b, h) ensures x in ReachAll(nodes, c, h) {
      var i :| 0 <= i < |b| && x in Reach(nodes, b[i].item, h);
      assert c[i + |a|] == b[i];
    }
    forall p | p in HoldsAll(nodes, b, h) ensures p in HoldsAll(nodes, c, h) {
      var i :| 0 <= i < |b| && p in Holds(nodes, b[i].item, h);
      assert c[i + |a|] == b[i];
    }
  }

  lemma AllSubSplit(nodes: Nodes, a: seq<Pair>, b: seq<Pair>, h: nat, lo: nat, hi: nat, min: nat)
    requires AllSub(nodes, a + b, h, lo, hi, min) && b != []
    ensures AllSub(nodes, a, h, lo, Bound(a, lo), min) && AllSub(nodes, b, h, Bound(a, lo), hi, min)
  {
    hide Sub;
    var c, m := a + b, Bound(a, lo);
    forall i | 0 <= i < |a| ensures Sub(nodes, a[i].item, h, Low(a, i, lo), High(a, i, m), min, false) {
      assert c[i] == a[i] && Low(c, i, lo) == Low(a, i, lo) && High(c, i, hi) == High(a, i, m);
    }
    forall i | 0 <= i < |b| ensures Sub(nodes, b[i].item, h, Low(b, i, m), High(b, i, hi), min, false) {
      assert c[i + |a|] == b[i] && Low(c, i + |a|, lo) == Low(b, i, m) && High(c, i + |a|, hi) == High(b, i, hi);
    }
  }

  lemma AllSubJoin(nodes: Nodes, a: seq<Pair>, b: seq<Pair>, h: nat, lo: nat, hi: nat, min: nat)
    requires AllSub(nodes, a, h, lo, Bound(a, lo), min) && AllSub(nodes, b, h, Bound(a, lo), hi, min) && b != []
    ensures AllSub(nodes, a + b, h, lo, hi, min)
  {
    hide Sub;
    var c, m := a + b, Bound(a, lo);
    forall i | 0 <= i < |c| ensures Sub(nodes, c[i].item, h, Low(c, i, lo), High(c, i, hi), min, false) {
      if i < |a| {
        assert c[i] == a[i] && Low(c, i, lo) == Low(a, i, lo) && High(c, i, hi) == High(a, i, m);
      } else {
        var k := i - |a|;
        assert c[i] == b[k] && Low(c, i, lo) == Low(b, k, m) && High(c, i, hi) == High(b, k, hi);
      }
    }
  }

  lemma ReachedByKid(nodes: Nodes, es: seq<Pair>, h: nat, x: nat) returns (i: nat)
    requires x in ReachAll(nodes, es, h)
    ensures i < |es| && x in Reach(nodes, es[i].item, h)
  {
    i :| 0 <= i < |es| && x in Reach(nodes, es[i].item, h);
  }

  lemma PairsApart(nodes: Nodes, a: seq<Pair>, b: seq<Pair>, h: nat, i: nat, j: nat)
    requires Apart(nodes, a + b, h) && i < |a| && j < |b|
    ensures Reach(nodes, a[i].item, h) !! Reach(nodes, b[j].item, h)
  {
    hide Reach;
    var c := a + b;
    assert c[i] == a[i] && c[j + |a|] == b[j];
  }

  lemma ApartParts(nodes: Nodes, a: seq<Pair>, b: seq<Pair>, h: nat)
    requires Apart(nodes, a + b, h)
    ensures Apart(nodes, a, h) && Apart(nodes, b, h) && ReachAll(nodes, a, h) !! ReachAll(nodes, b, h)
  {
    hide Reach;
    var c := a + b;
    forall i, j | 0 <= i < j < |a| ensures Reach(nodes, a[i].item, h) !! Reach(nodes, a[j].item, h) {
      assert c[i] == a[i] && c[j] == a[j];
    }
    forall i, j | 0 <= i < j < |b| ensures Reach(nodes, b[i].item, h) !! Reach(nodes, b[j].item, h) {
      assert c[i + |a|] == b[i] && c[j + |a|] == b[j];
    }
    hide ReachAll;
    forall x | x in ReachAll(nodes, a, h) ensures x !in ReachAll(nodes, b, h) {
      var i := ReachedByKid(nodes, a, h, x);
      if x in ReachAll(nodes, b, h) {
        var j := ReachedByKid(nodes, b, h, x);
        PairsApart(nodes, a, b, h, i, j);
      }
    }
  }

  lemma ApartJoin(nodes: Nodes, a: seq<Pair>, b: seq<Pair>, h: nat)
    requires Apart(nodes, a, h) && Apart(nodes, b, h) && ReachAll(nodes, a, h) !! ReachAll(nodes, b, h)
    ensures Apart(nodes, a + b, h)
  {
    hide Reach;
    var c := a + b;
    forall i, j | 0 <= i < j < |c| ensures Reach(nodes, c[i].item, h) !! Reach(nodes, c[j].item, h) {
      if j < |a| {
        assert c[i] == a[i] && c[j] == a[j];
      } else if i >= |a| {
        assert c[i] == b[i - |a|] && c[j] == b[j - |a|];
      } else {
        assert c[i] == a[i] && c[j] == b[j - |a|];
        assert Reach(nodes, a[i].item, h) <= ReachAll(nodes, a, h);
        assert Reach(nodes, b[j - |a|].item, h) <= ReachAll(nodes, b, h);
      }
    }
  }

  lemma KidsSplit(nodes: Nodes, a: seq<Pair>, b: seq<Pair>, h: nat, lo: nat, hi: nat, min: nat)
    requires Kids(nodes, a + b, h, lo, hi, min) && b != []
    ensures Kids(nodes, a, h, lo, Bound(a, lo), min) && Kids(nodes, b, h, Bound(a, lo), hi, min)
    ensures ReachAll(nodes, a, h) !! ReachAll(nodes, b, h)
  {
    hide AllSub, Apart, ReachAll;
    AllSubSplit(nodes, a, b, h, lo, hi, min);
    ApartParts(nodes, a, b, h);
  }

  lemma KidsJoin(nodes: Nodes, a: seq<Pair>, b: seq<Pair>, h: nat, lo: nat, hi: nat, min: nat)
    requires Kids(nodes, a, h, lo, Bound(a, lo), min) && Kids(nodes, b, h, Bound(a, lo), hi, min) && b != []
    requires ReachAll(nodes, a, h) !! ReachAll(nodes, b, h)
    ensures Kids(nodes, a + b, h, lo, hi, min)
  {
    hide AllSub, Apart, ReachAll;
    AllSubJoin(nodes, a, b, h, lo, hi, min);
    ApartJoin(nodes, a, b, h);
  }

  lemma LoneKid(nodes: Nodes, e: Pair, h: nat, lo: nat, hi: nat, min: nat)
    ensures Kids(nodes, [e], h, lo, hi, min) <==> Sub(nodes, e.item, h, lo, hi, min, false)
    ensures ReachAll(nodes, [e], h) == Reach(nodes, e.item, h) && HoldsAll(nodes, [e], h) == Holds(nodes, e.item, h)
    ensures LeavesAll(nodes, [e], h) == Leaves(nodes, e.item, h)
  {
    hide Sub, Reach, Holds, Leaves;
    assert LeavesAll(nodes, [e][1..], h) == [];
    assert [e][0] == e;
  }
}
