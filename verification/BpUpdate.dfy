/** How a change below one child of an index node carries over to the node and, along the
    path from the root, to the whole tree. */
module BpUpdate {
  import opened BpPairs
  import opened BpShape

  /** The pairs of `s` with another key. */
  ghost function Without(s: set<Pair>, key: nat): set<Pair> {
    set p | p in s && p.key != key
  }

  lemma WithinSlice(c: seq<Pair>, i: nat, j: nat, lo: nat, hi: nat)
    requires Within(c, lo, hi) && i <= j <= |c|
    ensures Within(c[i..j], if i == 0 then lo else c[i - 1].key, if i < j < |c| then c[j - 1].key else hi)
  {
    assert forall k :: 0 <= k < j - i ==> c[i..j][k] == c[k + i];
  }

  lemma WithinParts(a: seq<Pair>, e: Pair, b: seq<Pair>, lo: nat, hi: nat)
    requires Within(a + [e] + b, lo, hi)
    ensures Within(a, lo, Bound(a, lo)) && Bound(a, lo) < e.key <= hi && Within(b, e.key, hi) && Bound(a, lo) <= hi
  {
    var c := a + [e] + b;
    assert c[|a|] == e && (a != [] ==> c[|a| - 1] == a[|a| - 1]);
    assert c[0..|a|] == a && c[|a| + 1..|c|] == b;
    WithinSlice(c, 0, |a|, lo, hi);
    WithinSlice(c, |a| + 1, |c|, lo, hi);
    WithinAt(c, |a|, lo, hi);
    hide Within;
    assert a == [] ==> Within(a, lo, lo) by { EmptyWithin(lo); }
  }

  lemma EmptyWithin(lo: nat)
    ensures Within([], lo, lo)
  {
  }

  lemma WithinAt(c: seq<Pair>, i: nat, lo: nat, hi: nat)
    requires Within(c, lo, hi) && i < |c|
    ensures lo < c[i].key <= hi && (i > 0 ==> lo < c[i - 1].key < c[i].key)
  {
  }

  lemma HeldInKids(nodes: Nodes, es: seq<Pair>, h: nat, lo: nat, hi: nat, min: nat, p: Pair)
    requires Kids(nodes, es, h, lo, hi, min) && Within(es, lo, hi) && p in HoldsAll(nodes, es, h)
    ensures lo < p.key <= hi
  {
    hide *;
    var i := HeldByKid(nodes, es, h, p);
    KidValid(nodes, es, h, lo, hi, min, i);
    ChildBounds(es, i, lo, hi);
    HeldWithin(nodes, es[i].item, h, Low(es, i, lo), High(es, i, hi), min, false, p);
  }

  /** Children a + [e] + b, seen as three parts. */
  lemma KidsParts(nodes: Nodes, a: seq<Pair>, e: Pair, b: seq<Pair>, h: nat, lo: nat, hi: nat, min: nat)
    requires Kids(nodes, a + [e] + b, h, lo, hi, min)
    ensures Kids(nodes, a, h, lo, Bound(a, lo), min)
    ensures Sub(nodes, e.item, h, Bound(a, lo), if b == [] then hi else e.key, min, false)
    ensures b != [] ==> Kids(nodes, b, h, e.key, hi, min)
    ensures ReachAll(nodes, a, h) !! Reach(nodes, e.item, h) && ReachAll(nodes, a, h) !! ReachAll(nodes, b, h)
    ensures Reach(nodes, e.item, h) !! ReachAll(nodes, b, h)
    ensures ReachAll(nodes, a + [e] + b, h) == ReachAll(nodes, a, h) + Reach(nodes, e.item, h) + ReachAll(nodes, b, h)
    ensures HoldsAll(nodes, a + [e] + b, h) == HoldsAll(nodes, a, h) + Holds(nodes, e.item, h) + HoldsAll(nodes, b, h)
    ensures LeavesAll(nodes, a + [e] + b, h) == LeavesAll(nodes, a, h) + Leaves(nodes, e.item, h) + LeavesAll(nodes, b, h)
  {
    hide Kids, Sub, ReachAll, Reach, HoldsAll, Holds, LeavesAll, Leaves;
    assert a + [e] + b == a + ([e] + b);
    assert b == [] ==> [e] + b == [e];
    NothingEmpty(nodes, h, lo, hi, min);
    KidsSplit(nodes, a, [e] + b, h, lo, hi, min);
    AllJoin(nodes, a, [e] + b, h);
    AllJoin(nodes, [e], b, h);
    var l := Bound(a, lo);
    LoneKid(nodes, e, h, l, if b == [] then hi else e.key, min);
    if b != [] {
      KidsSplit(nodes, [e], b, h, l, hi, min);
    }
  }

  lemma NothingEmpty(nodes: Nodes, h: nat, lo: nat, hi: nat, min: nat)
    ensures Kids(nodes, [], h, lo, hi, min) && ReachAll(nodes, [], h) == {} && HoldsAll(nodes, [], h) == {}
    ensures LeavesAll(nodes, [], h) == []
  {
  }

  /** Three parts put together: children `m` between `a` and `b`. */
  lemma KidsTogether(nodes: Nodes, a: seq<Pair>, m: seq<Pair>, b: seq<Pair>, h: nat, lo: nat, hi: nat, min: nat)
    requires m != [] && Kids(nodes, a, h, lo, Bound(a, lo), min)
    requires Kids(nodes, m, h, Bound(a, lo), if b == [] then hi else Bound(m, 0), min)
    requires b != [] ==> Kids(nodes, b, h, Bound(m, 0), hi, min)
    requires ReachAll(nodes, a, h) !! ReachAll(nodes, m, h) && ReachAll(nodes, a, h) !! ReachAll(nodes, b, h)
    requires ReachAll(nodes, m, h) !! ReachAll(nodes, b, h)
    ensures Kids(nodes, a + m + b, h, lo, hi, min)
    ensures ReachAll(nodes, a + m + b, h) == ReachAll(nodes, a, h) + ReachAll(nodes, m, h) + ReachAll(nodes, b, h)
    ensures HoldsAll(nodes, a + m + b, h) == HoldsAll(nodes, a, h) + HoldsAll(nodes, m, h) + HoldsAll(nodes, b, h)
    ensures LeavesAll(nodes, a + m + b, h) == LeavesAll(nodes, a, h) + LeavesAll(nodes, m, h) + LeavesAll(nodes, b, h)
  {
    hide Kids, Sub, ReachAll, Reach, HoldsAll, Holds, LeavesAll, Leaves;
    assert a + m + b == a + (m + b);
    assert Bound(m, Bound(a, lo)) == Bound(m, 0);
    assert b == [] ==> m + b == m;
    AllJoin(nodes, a, m + b, h);
    AllJoin(nodes, m, b, h);
    if b != [] {
      KidsJoin(nodes, m, b, h, Bound(a, lo), hi, min);
    }
    KidsJoin(nodes, a, m + b, h, lo, hi, min);
  }

  /** Child `e` has been replaced by children `m`, the others are as they were. */
  lemma ChildReplaced(nodes: Nodes, nodes': Nodes, a: seq<Pair>, e: Pair, m: seq<Pair>, b: seq<Pair>,
                      h: nat, lo: nat, hi: nat, min: nat)
    requires Kids(nodes, a + [e] + b, h, lo, hi, min) && m != []
    requires SameOn(nodes, nodes', ReachAll(nodes, a, h)) && SameOn(nodes, nodes', ReachAll(nodes, b, h))
    requires Kids(nodes', m, h, Bound(a, lo), if b == [] then hi else Bound(m, 0), min)
    requires b != [] ==> Bound(m, 0) <= e.key
    requires ReachAll(nodes', m, h) !! ReachAll(nodes, a, h) && ReachAll(nodes', m, h) !! ReachAll(nodes, b, h)
    ensures Kids(nodes', a + m + b, h, lo, hi, min)
    ensures ReachAll(nodes', a + m + b, h) == ReachAll(nodes, a, h) + ReachAll(nodes', m, h) + ReachAll(nodes, b, h)
    ensures HoldsAll(nodes', a + m + b, h) == HoldsAll(nodes, a, h) + HoldsAll(nodes', m, h) + HoldsAll(nodes, b, h)
    ensures LeavesAll(nodes', a + m + b, h) == LeavesAll(nodes, a, h) + LeavesAll(nodes', m, h) + LeavesAll(nodes, b, h)
  {
    hide Kids, Sub, ReachAll, Reach, HoldsAll, Holds, Bound, SameOn, LeavesAll, Leaves;
    KidsParts(nodes, a, e, b, h, lo, hi, min);
    KidsFrame(nodes, nodes', a, h, lo, Bound(a, lo), min);
    NothingEmpty(nodes, h, 0, 0, min);
    NothingEmpty(nodes', h, 0, 0, min);
    if b != [] {
      KidsFrame(nodes, nodes', b, h, e.key, hi, min);
      WidenKids(nodes', b, h, e.key, Bound(m, 0), hi, min);
    }
    KidsTogether(nodes', a, m, b, h, lo, hi, min);
  }

  // ----------------------------------------------------- along the path of a key

  /** A node on the path of a key, and the interval routed to it. */
  datatype Spot = Spot(off: nat, lo: nat, hi: nat)

  ghost function Below(nodes: Nodes, at: Spot, key: nat): Spot {
    if at.off !in nodes || Entries(nodes[at.off]) == [] then at
    else
      var es := Entries(nodes[at.off]);
      var j := Route(es, key);
      Spot(es[j].item, Low(es, j, at.lo), High(es, j, at.hi))
  }

  /** The node `d` steps down the path of `key`. */
  ghost function Down(nodes: Nodes, at: Spot, key: nat, d: nat): Spot
    decreases d
  {
    if d == 0 then at else Down(nodes, Below(nodes, at, key), key, d - 1)
  }

  ghost predicate SubAt(nodes: Nodes, at: Spot, h: nat, min: nat, top: bool) {
    Sub(nodes, at.off, h, at.lo, at.hi, min, top)
  }

  /** Only the nodes `s` were changed, and new ones added. */
  ghost predicate OnlyIn(nodes: Nodes, nodes': Nodes, s: set<nat>) {
    nodes.Keys <= nodes'.Keys && forall x :: x in nodes && x !in s ==> nodes'[x] == nodes[x]
  }

  /** New nodes may have joined the subtree. */
  ghost predicate ReachGrew(nodes: Nodes, was: set<nat>, now: set<nat>) {
    was <= now && forall x :: x in now && x !in was ==> x !in nodes
  }

  /** One change to the leaves: leaf `dp` has become the leaves `mid`, and `key` has `add`. */
  datatype Change = Change(key: nat, add: set<Pair>, dp: nat, mid: seq<nat>)

  ghost predicate Spliced(was: seq<nat>, now: seq<nat>, c: Change) {
    exists x, y :: SplicedAt(was, now, c, x, y)
  }

  ghost predicate SplicedAt(was: seq<nat>, now: seq<nat>, c: Change, x: seq<nat>, y: seq<nat>) {
    was == x + [c.dp] + y && now == x + c.mid + y
  }

  lemma SplicedMore(was: seq<nat>, now: seq<nat>, c: Change, a: seq<nat>, b: seq<nat>)
    requires Spliced(was, now, c)
    ensures Spliced(a + was + b, a + now + b, c)
  {
    var x, y :| SplicedAt(was, now, c, x, y);
    assert a + was + b == (a + x) + [c.dp] + (y + b);
    assert a + now + b == (a + x) + c.mid + (y + b);
    assert SplicedAt(a + was + b, a + now + b, c, a + x, y + b);
  }

  /** The subtree at `at` is valid again, with the change `c` made. */
  ghost predicate Updated(nodes: Nodes, nodes': Nodes, at: Spot, h: nat, min: nat, top: bool, c: Change) {
    && SubAt(nodes', at, h, min, top)
    && Holds(nodes', at.off, h) == Without(Holds(nodes, at.off, h), c.key) + c.add
    && Spliced(Leaves(nodes, at.off, h), Leaves(nodes', at.off, h), c)
    && ReachGrew(nodes, Reach(nodes, at.off, h), Reach(nodes', at.off, h))
  }

  lemma {:induction false} ReachExists(nodes: Nodes, off: nat, h: nat, x: nat)
    requires x in Reach(nodes, off, h)
    ensures x in nodes
    decreases h
  {
    if x != off {
      var es := Entries(nodes[off]);
      hide Reach;
      var i := ReachedByKid(nodes, es, h - 1, x);
      ReachExists(nodes, es[i].item, h - 1, x);
    }
  }

  lemma AllReachExist(nodes: Nodes, es: seq<Pair>, h: nat)
    ensures ReachAll(nodes, es, h) <= nodes.Keys
  {
    forall x | x in ReachAll(nodes, es, h) ensures x in nodes {
      hide *;
      var i := ReachedByKid(nodes, es, h, x);
      ReachExists(nodes, es[i].item, h, x);
    }
  }

  /** The node on the path below an index node is one of its children, here `e`. */
  lemma BelowIsChild(nodes: Nodes, at: Spot, h: nat, min: nat, top: bool, key: nat)
      returns (a: seq<Pair>, e: Pair, b: seq<Pair>)
    requires SubAt(nodes, at, h, min, top) && h > 0 && at.lo < key <= at.hi
    ensures Entries(nodes[at.off]) == a + [e] + b && Within(a + [e] + b, at.lo, at.hi)
    ensures Kids(nodes, a + [e] + b, h - 1, at.lo, at.hi, min)
    ensures Below(nodes, at, key) == Spot(e.item, Bound(a, at.lo), if b == [] then at.hi else e.key)
    ensures Bound(a, at.lo) < key && (b != [] ==> key <= e.key)
    ensures |a| == Route(Entries(nodes[at.off]), key)
  {
    hide Sub, Kids, Holds, Reach, ReachAll, HoldsAll, Entries, Within, Route;
    SubKids(nodes, at.off, h, at.lo, at.hi, min, top);
    var es := Entries(nodes[at.off]);
    RouteBounds(es, key, at.lo, at.hi);
    var j := Route(es, key);
    a, e, b := es[..j], es[j], es[j + 1..];
    assert es == a + [e] + b;
  }

  lemma BelowIsSub(nodes: Nodes, at: Spot, h: nat, min: nat, top: bool, key: nat)
    requires SubAt(nodes, at, h, min, top) && h > 0 && at.lo < key <= at.hi
    ensures var s := Below(nodes, at, key);
      SubAt(nodes, s, h - 1, min, false) && s.lo < key <= s.hi
  {
    hide Sub, Kids, Below, Bound;
    var a, e, b := BelowIsChild(nodes, at, h, min, top, key);
    KidsParts(nodes, a, e, b, h - 1, at.lo, at.hi, min);
  }

  /** Other children hold nothing for `key`. */
  lemma OthersWithout(nodes: Nodes, a: seq<Pair>, e: Pair, b: seq<Pair>, h: nat, lo: nat, hi: nat, min: nat, key: nat)
    requires Kids(nodes, a + [e] + b, h, lo, hi, min) && Within(a + [e] + b, lo, hi)
    requires Bound(a, lo) < key && (b != [] ==> key <= e.key)
    ensures Without(HoldsAll(nodes, a, h), key) == HoldsAll(nodes, a, h)
    ensures Without(HoldsAll(nodes, b, h), key) == HoldsAll(nodes, b, h)
  {
    hide Kids, Within, HoldsAll, Bound;
    KidsParts(nodes, a, e, b, h, lo, hi, min);
    WithinParts(a, e, b, lo, hi);
    forall p | p in HoldsAll(nodes, a, h) ensures p.key != key {
      HeldInKids(nodes, a, h, lo, Bound(a, lo), min, p);
    }
    NothingEmpty(nodes, h, lo, hi, min);
    forall p | p in HoldsAll(nodes, b, h) ensures p.key != key {
      HeldInKids(nodes, b, h, e.key, hi, min, p);
    }
  }

  /** An index node with the entries `es`. */
  lemma IndexValid(nodes: Nodes, off: nat, es: seq<Pair>, h: nat, lo: nat, hi: nat, min: nat, top: bool)
    requires off in nodes && off != 0 && Shaped(nodes[off]) && nodes[off].root == top && !nodes[off].leaf && h > 0
    requires Entries(nodes[off]) == es && |es| == Width(nodes[off]) && WideEnough(|es|, h, min, top) && Within(es, lo, hi)
    requires Kids(nodes, es, h - 1, lo, hi, min) && off !in ReachAll(nodes, es, h - 1)
    ensures Sub(nodes, off, h, lo, hi, min, top)
    ensures Reach(nodes, off, h) == {off} + ReachAll(nodes, es, h - 1) && Holds(nodes, off, h) == HoldsAll(nodes, es, h - 1)
    ensures Leaves(nodes, off, h) == LeavesAll(nodes, es, h - 1)
  {
  }

  /** Nodes of the other children are neither changed nor shared with the new nodes. */
  lemma OthersUntouched(nodes: Nodes, nodes': Nodes, es: seq<Pair>, h: nat, was: set<nat>, now: set<nat>)
    requires ReachAll(nodes, es, h) !! was && ReachGrew(nodes, was, now) && OnlyIn(nodes, nodes', was)
    ensures SameOn(nodes, nodes', ReachAll(nodes, es, h)) && now !! ReachAll(nodes, es, h)
  {
    hide ReachAll;
    AllReachExist(nodes, es, h);
  }

  lemma NodeFacts(nodes: Nodes, off: nat, h: nat, lo: nat, hi: nat, min: nat, top: bool)
    requires Sub(nodes, off, h, lo, hi, min, top)
    ensures off in nodes && off != 0 && Shaped(nodes[off]) && nodes[off].root == top && nodes[off].leaf == (h == 0)
    ensures WideEnough(Width(nodes[off]), h, min, top)
  {
  }

  /** Child `e` has changed in place. */
  lemma ChildUpdated(nodes: Nodes, nodes': Nodes, a: seq<Pair>, e: Pair, b: seq<Pair>, h: nat, lo: nat, hi: nat, min: nat, c: Change)
    requires Kids(nodes, a + [e] + b, h, lo, hi, min) && Within(a + [e] + b, lo, hi)
    requires Bound(a, lo) < c.key && (b != [] ==> c.key <= e.key)
    requires Updated(nodes, nodes', Spot(e.item, Bound(a, lo), if b == [] then hi else e.key), h, min, false, c)
    requires OnlyIn(nodes, nodes', Reach(nodes, e.item, h))
    ensures Kids(nodes', a + [e] + b, h, lo, hi, min)
    ensures HoldsAll(nodes', a + [e] + b, h) == Without(HoldsAll(nodes, a + [e] + b, h), c.key) + c.add
    ensures Spliced(LeavesAll(nodes, a + [e] + b, h), LeavesAll(nodes', a + [e] + b, h), c)
    ensures ReachGrew(nodes, ReachAll(nodes, a + [e] + b, h), ReachAll(nodes', a + [e] + b, h))
    ensures Reach(nodes, e.item, h) <= ReachAll(nodes, a + [e] + b, h)
  {
    var was, now := Reach(nodes, e.item, h), Reach(nodes', e.item, h);
    hide Sub, Kids, Holds, HoldsAll, Reach, ReachAll, Within, Bound, SameOn, OnlyIn, Without, Leaves, LeavesAll, Spliced;
    KidsParts(nodes, a, e, b, h, lo, hi, min);
    OthersUntouched(nodes, nodes', a, h, was, now);
    OthersUntouched(nodes, nodes', b, h, was, now);
    LoneKid(nodes', e, h, Bound(a, lo), if b == [] then hi else e.key, min);
    assert Bound([e], 0) == e.key by { LoneBound(e); }
    ChildReplaced(nodes, nodes', a, e, [e], b, h, lo, hi, min);
    OthersWithout(nodes, a, e, b, h, lo, hi, min, c.key);
    WithoutJoin(HoldsAll(nodes, a, h), Holds(nodes, e.item, h), HoldsAll(nodes, b, h), c.key, c.add);
    SplicedMore(Leaves(nodes, e.item, h), Leaves(nodes', e.item, h), c, LeavesAll(nodes, a, h), LeavesAll(nodes, b, h));
  }

  lemma LoneBound(e: Pair)
    ensures Bound([e], 0) == e.key
  {
  }

  /** A change below the child on the path of `key`, seen from the parent. */
  lemma LiftStep(nodes: Nodes, nodes': Nodes, at: Spot, h: nat, min: nat, top: bool, c: Change)
    requires SubAt(nodes, at, h, min, top) && h > 0 && at.lo < c.key <= at.hi
    requires var s := Below(nodes, at, c.key);
      Updated(nodes, nodes', s, h - 1, min, false, c) && OnlyIn(nodes, nodes', Reach(nodes, s.off, h - 1))
    ensures Updated(nodes, nodes', at, h, min, top, c) && OnlyIn(nodes, nodes', Reach(nodes, at.off, h))
  {
    hide Sub, Kids, Holds, HoldsAll, Reach, ReachAll, Entries, Within, Shaped, WideEnough, Below, Bound, Without, Leaves,
      LeavesAll, Spliced;
    var off := at.off;
    NodeFacts(nodes, off, h, at.lo, at.hi, min, top);
    SubKids(nodes, off, h, at.lo, at.hi, min, top);
    var a, e, b := BelowIsChild(nodes, at, h, min, top, c.key);
    var es := a + [e] + b;
    ChildUpdated(nodes, nodes', a, e, b, h - 1, at.lo, at.hi, min, c);
    hide Route;
    assert nodes'[off] == nodes[off];
    assert off !in ReachAll(nodes', es, h - 1);
    IndexValid(nodes', off, es, h, at.lo, at.hi, min, top);
  }

  lemma WithoutJoin(x: set<Pair>, y: set<Pair>, z: set<Pair>, key: nat, add: set<Pair>)
    requires Without(x, key) == x && Without(z, key) == z
    ensures x + (Without(y, key) + add) + z == Without(x + y + z, key) + add
  {
  }

  /** A change `d` steps down the path of `key`, seen from the top of the path. */
  lemma {:induction false} Lift(nodes: Nodes, nodes': Nodes, at: Spot, h: nat, min: nat, top: bool, c: Change, d: nat)
    requires SubAt(nodes, at, h, min, top) && at.lo < c.key <= at.hi && d <= h
    requires var s := Down(nodes, at, c.key, d);
      Updated(nodes, nodes', s, h - d, min, top && d == 0, c) && OnlyIn(nodes, nodes', Reach(nodes, s.off, h - d))
    ensures Updated(nodes, nodes', at, h, min, top, c) && OnlyIn(nodes, nodes', Reach(nodes, at.off, h))
    decreases d
  {
    hide Updated, OnlyIn, SubAt, Reach, Below;
    if d > 0 {
      BelowIsSub(nodes, at, h, min, top, c.key);
      Lift(nodes, nodes', Below(nodes, at, c.key), h - 1, min, false, c, d - 1);
      LiftStep(nodes, nodes', at, h, min, top, c);
    }
  }

  /** The path of a key stays inside the tree. */
  lemma {:induction false} DownIsSub(nodes: Nodes, at: Spot, h: nat, min: nat, top: bool, key: nat, d: nat)
    requires SubAt(nodes, at, h, min, top) && at.lo < key <= at.hi && d <= h
    ensures var s := Down(nodes, at, key, d); SubAt(nodes, s, h - d, min, top && d == 0) && s.lo < key <= s.hi
    decreases d
  {
    hide SubAt, Below;
    if d > 0 {
      BelowIsSub(nodes, at, h, min, top, key);
      DownIsSub(nodes, Below(nodes, at, key), h - 1, min, false, key, d - 1);
    }
  }

  lemma {:induction false} DownMore(nodes: Nodes, at: Spot, key: nat, d: nat)
    ensures Down(nodes, at, key, d + 1) == Below(nodes, Down(nodes, at, key, d), key)
    decreases d
  {
    hide Below;
    if d > 0 { DownMore(nodes, Below(nodes, at, key), key, d - 1); }
  }
}
