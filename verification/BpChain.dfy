/** The next/prev chain of the leaves of the directory B+tree. */
module BpChain {
  import opened Sequences
  import opened BpPairs
  import opened BpShape
  import opened BpUpdate

  type Links = map<nat, nat>

  /** A link field; 0 is "none". */
  function Get(m: Links, x: nat): nat {
    if x in m then m[x] else 0
  }

  ghost predicate Distinct(s: seq<nat>) {
    0 !in s && NoDuplicates(s)
  }

  /** Leaves `ls` are linked in this order. */
  ghost predicate Linked(next: Links, prev: Links, ls: seq<nat>) {
    forall i :: 0 <= i < |ls| ==> Get(next, ls[i]) == After(ls, i) && Get(prev, ls[i]) == Before(ls, i)
  }

  ghost function After(ls: seq<nat>, i: nat): nat {
    if i + 1 < |ls| then ls[i + 1] else 0
  }

  ghost function Before(ls: seq<nat>, i: nat): nat {
    if 0 < i <= |ls| then ls[i - 1] else 0
  }

  lemma LinkedAt(next: Links, prev: Links, ls: seq<nat>, i: nat)
    requires Linked(next, prev, ls) && i < |ls|
    ensures Get(next, ls[i]) == After(ls, i) && Get(prev, ls[i]) == Before(ls, i)
  {
  }

  /** The links after leaf `r` has been put behind leaf `dp`. */
  function NextAfter(next: Links, dp: nat, r: nat): Links {
    next[r := Get(next, dp)][dp := r]
  }

  function PrevAfter(next: Links, prev: Links, dp: nat, r: nat): Links {
    var p := prev[r := dp];
    if Get(next, dp) != 0 then p[Get(next, dp) := r] else p
  }

  /** Position `i` of the leaves with `r` put behind position `n`. */
  ghost function Behind(was: seq<nat>, n: nat, r: nat, i: int): nat
    requires n < |was| && 0 <= i <= |was|
  {
    if i <= n then was[i] else if i == n + 1 then r else was[i - 1]
  }

  lemma LinkedBehind(next: Links, prev: Links, was: seq<nat>, n: nat, r: nat, i: nat)
    requires Linked(next, prev, was) && Distinct(was) && r != 0 && r !in was && n < |was| && i <= |was|
    ensures var next', prev' := NextAfter(next, was[n], r), PrevAfter(next, prev, was[n], r);
      && Get(next', Behind(was, n, r, i)) == (if i < |was| then Behind(was, n, r, i + 1) else 0)
      && Get(prev', Behind(was, n, r, i)) == (if i > 0 then Behind(was, n, r, i - 1) else 0)
  {
    var k := if i <= n then i else i - 1;
    hide Linked, Distinct;
    LinkedAt(next, prev, was, n);
    LinkedAt(next, prev, was, k);
    DistinctAt(was, r, n, k);
    if n + 1 < |was| { DistinctAt(was, r, n + 1, k); DistinctAt(was, r, n + 1, n); }
  }

  lemma DistinctAt(s: seq<nat>, r: nat, i: nat, j: nat)
    requires Distinct(s) && r !in s && i < |s| && j < |s|
    ensures s[i] != r && s[j] != r && s[i] != 0 && s[j] != 0 && (s[i] == s[j] <==> i == j)
  {
  }

  lemma LinkedAfter(next: Links, prev: Links, x: seq<nat>, dp: nat, y: seq<nat>, r: nat)
    requires Linked(next, prev, x + [dp] + y) && Distinct(x + [dp] + y) && r != 0 && r !in x + [dp] + y
    ensures Linked(NextAfter(next, dp, r), PrevAfter(next, prev, dp, r), x + [dp, r] + y)
  {
    var was, now, n := x + [dp] + y, x + [dp, r] + y, |x|;
    assert was[n] == dp;
    hide Linked, Distinct, NextAfter, PrevAfter;
    forall i | 0 <= i < |now| ensures now[i] == Behind(was, n, r, i) {
    }
    forall i | 0 <= i < |now|
      ensures Get(NextAfter(next, dp, r), now[i]) == After(now, i) && Get(PrevAfter(next, prev, dp, r), now[i]) == Before(now, i)
    {
      LinkedBehind(next, prev, was, n, r, i);
    }
    IsLinked(NextAfter(next, dp, r), PrevAfter(next, prev, dp, r), now);
  }

  lemma IsLinked(next: Links, prev: Links, ls: seq<nat>)
    requires forall i :: 0 <= i < |ls| ==> Get(next, ls[i]) == After(ls, i) && Get(prev, ls[i]) == Before(ls, i)
    ensures Linked(next, prev, ls)
  {
  }

  // ------------------------------------------------------ the leaves are distinct

  lemma {:induction false} LeafReached(nodes: Nodes, off: nat, h: nat, x: nat)
    requires x in Leaves(nodes, off, h)
    ensures x in Reach(nodes, off, h)
    decreases h, 0, 0
  {
    if h > 0 {
      var es := Entries(nodes[off]);
      assert x in LeavesAll(nodes, es, h - 1);
      LeafReachedAll(nodes, es, h - 1, x);
    }
  }

  lemma {:induction false} LeafReachedAll(nodes: Nodes, es: seq<Pair>, h: nat, x: nat)
    requires x in LeavesAll(nodes, es, h)
    ensures x in ReachAll(nodes, es, h)
    decreases h, 1, |es|
  {
    hide Reach, Leaves;
    if es != [] {
      if x in Leaves(nodes, es[0].item, h) {
        LeafReached(nodes, es[0].item, h, x);
      } else {
        LeafReachedAll(nodes, es[1..], h, x);
        hide ReachAll;
        var i := ReachedByKid(nodes, es[1..], h, x);
        InAll(nodes, es, h, i + 1, x);
      }
    }
  }

  lemma InAll(nodes: Nodes, es: seq<Pair>, h: nat, i: nat, x: nat)
    requires i < |es| && x in Reach(nodes, es[i].item, h)
    ensures x in ReachAll(nodes, es, h)
  {
  }

  lemma {:induction false} LeavesDistinct(nodes: Nodes, off: nat, h: nat, lo: nat, hi: nat, min: nat, top: bool)
    requires Sub(nodes, off, h, lo, hi, min, top)
    ensures Distinct(Leaves(nodes, off, h)) && Leaves(nodes, off, h) != []
    decreases h, 0, 0
  {
    hide Sub, Kids, Reach, ReachAll, Leaves, LeavesAll, Entries, Holds, HoldsAll, Within, Shaped;
    SubKids(nodes, off, h, lo, hi, min, top);
    NodeFacts(nodes, off, h, lo, hi, min, top);
    if h > 0 {
      AllDistinct(nodes, Entries(nodes[off]), h - 1, lo, hi, min);
    }
  }

  lemma {:induction false} AllDistinct(nodes: Nodes, es: seq<Pair>, h: nat, lo: nat, hi: nat, min: nat)
    requires Kids(nodes, es, h, lo, hi, min)
    ensures Distinct(LeavesAll(nodes, es, h)) && (es != [] ==> LeavesAll(nodes, es, h) != [])
    decreases h, 1, |es|
  {
    if es != [] {
      var e, b := es[0], es[1..];
      assert es == [] + [e] + b;
      hide Sub, Kids, Reach, ReachAll, Leaves, Holds, HoldsAll, Distinct;
      KidsParts(nodes, [], e, b, h, lo, hi, min);
      LeavesDistinct(nodes, e.item, h, Bound([], lo), if b == [] then hi else e.key, min, false);
      if b != [] {
        AllDistinct(nodes, b, h, e.key, hi, min);
      } else {
        NoneDistinct(nodes, h);
      }
      assert LeavesAll(nodes, es, h) == Leaves(nodes, e.item, h) + LeavesAll(nodes, b, h);
      forall x | x in Leaves(nodes, e.item, h) ensures x !in LeavesAll(nodes, b, h) {
        LeafReached(nodes, e.item, h, x);
        if x in LeavesAll(nodes, b, h) { LeafReachedAll(nodes, b, h, x); }
      }
      DistinctJoin(Leaves(nodes, e.item, h), LeavesAll(nodes, b, h));
    }
  }

  lemma NoneDistinct(nodes: Nodes, h: nat)
    ensures Distinct(LeavesAll(nodes, [], h))
  {
  }

  lemma DistinctJoin(a: seq<nat>, b: seq<nat>)
    requires Distinct(a) && Distinct(b) && forall x :: x in a ==> x !in b
    ensures Distinct(a + b)
  {
    var c := a + b;
    forall i, j | 0 <= i < j < |c| ensures c[i] != c[j] {
      if i < |a| <= j { assert c[i] in a && c[j] in b; }
    }
  }

  // ----------------------------------------------------------- keys in order

  /** All pairs of a subtree, leaf by leaf. */
  ghost function InOrder(nodes: Nodes, ls: seq<nat>): seq<Pair> {
    if ls == [] then [] else (if ls[0] in nodes then Entries(nodes[ls[0]]) else []) + InOrder(nodes, ls[1..])
  }

  lemma {:induction false} InOrderJoin(nodes: Nodes, a: seq<nat>, b: seq<nat>)
    ensures InOrder(nodes, a + b) == InOrder(nodes, a) + InOrder(nodes, b)
    decreases |a|
  {
    if a == [] {
      assert a + b == b;
    } else {
      assert (a + b)[1..] == a[1..] + b;
      InOrderJoin(nodes, a[1..], b);
    }
  }

  lemma WithinJoin(a: seq<Pair>, b: seq<Pair>, lo: nat, m: nat, hi: nat)
    requires Within(a, lo, m) && Within(b, m, hi) && lo <= m <= hi
    ensures Within(a + b, lo, hi)
  {
    var c := a + b;
    assert forall i :: 0 <= i < |c| ==> c[i] == if i < |a| then a[i] else b[i - |a|];
  }

  /** The leaves from left to right hold the tree's pairs, keys ascending. */
  lemma {:induction false} LeavesAscend(nodes: Nodes, off: nat, h: nat, lo: nat, hi: nat, min: nat, top: bool)
    requires Sub(nodes, off, h, lo, hi, min, top)
    ensures Within(InOrder(nodes, Leaves(nodes, off, h)), lo, hi)
    ensures (set p | p in InOrder(nodes, Leaves(nodes, off, h))) == Holds(nodes, off, h)
    decreases h, 0, 0
  {
    hide Sub, Kids, Reach, ReachAll, Leaves, LeavesAll, Entries, Holds, HoldsAll, Within, Shaped;
    SubKids(nodes, off, h, lo, hi, min, top);
    var es := Entries(nodes[off]);
    if h == 0 {
      assert InOrder(nodes, [off][1..]) == [];
      assert InOrder(nodes, [off]) == es;
    } else {
      AllAscend(nodes, es, h - 1, lo, hi, min);
    }
  }

  lemma {:induction false} AllAscend(nodes: Nodes, es: seq<Pair>, h: nat, lo: nat, hi: nat, min: nat)
    requires Kids(nodes, es, h, lo, hi, min) && Within(es, lo, hi)
    ensures Within(InOrder(nodes, LeavesAll(nodes, es, h)), lo, hi)
    ensures (set p | p in InOrder(nodes, LeavesAll(nodes, es, h))) == HoldsAll(nodes, es, h)
    decreases h, 1, |es|
  {
    hide Sub, Kids, Reach, ReachAll, Leaves, Holds, HoldsAll, Within, InOrder, Bound;
    if es == [] {
      NothingInOrder(nodes, h, lo, hi);
    } else {
      var e, b := es[0], es[1..];
      assert es == [] + [e] + b;
      KidsParts(nodes, [], e, b, h, lo, hi, min);
      WithinParts([], e, b, lo, hi);
      assert Bound([], lo) == lo by { EmptyBound(lo); }
      var k := if b == [] then hi else e.key;
      LeavesAscend(nodes, e.item, h, lo, k, min, false);
      var x, y := InOrder(nodes, Leaves(nodes, e.item, h)), InOrder(nodes, LeavesAll(nodes, b, h));
      NothingInOrder(nodes, h, k, hi);
      if b != [] { AllAscend(nodes, b, h, e.key, hi, min); }
      assert LeavesAll(nodes, es, h) == Leaves(nodes, e.item, h) + LeavesAll(nodes, b, h);
      InOrderJoin(nodes, Leaves(nodes, e.item, h), LeavesAll(nodes, b, h));
      WithinJoin(x, y, lo, k, hi);
      AllIsParts(nodes, e, b, h);
      assert (set p | p in x + y) == (set p | p in x) + (set p | p in y);
    }
  }

  lemma AllIsParts(nodes: Nodes, e: Pair, b: seq<Pair>, h: nat)
    ensures HoldsAll(nodes, [] + [e] + b, h) == Holds(nodes, e.item, h) + HoldsAll(nodes, b, h)
  {
    hide Holds, HoldsAll, Sub, Kids;
    assert [] + [e] + b == [e] + b;
    AllJoin(nodes, [e], b, h);
    LoneKid(nodes, e, h, 0, 0, 0);
  }

  lemma EmptyBound(lo: nat)
    ensures Bound([], lo) == lo
  {
  }

  lemma NothingInOrder(nodes: Nodes, h: nat, lo: nat, hi: nat)
    ensures LeavesAll(nodes, [], h) == [] && InOrder(nodes, []) == [] && Within([], lo, hi) && HoldsAll(nodes, [], h) == {}
  {
  }

  // ------------------------------------------------------- following the links

  /** The leaves met from `x` on along `next`, at most `n` of them. */
  ghost function Chain(next: Links, x: nat, n: nat): seq<nat>
    decreases n
  {
    if x == 0 || n == 0 then [] else [x] + Chain(next, Get(next, x), n - 1)
  }

  ghost predicate Forward(next: Links, ls: seq<nat>) {
    forall i :: 0 <= i < |ls| ==> ls[i] != 0 && Get(next, ls[i]) == After(ls, i)
  }

  lemma LinkedForward(next: Links, prev: Links, ls: seq<nat>)
    requires Linked(next, prev, ls) && Distinct(ls)
    ensures Forward(next, ls)
  {
    assert forall i :: 0 <= i < |ls| ==> ls[i] in ls;
  }

  lemma ForwardRest(next: Links, ls: seq<nat>)
    requires Forward(next, ls) && ls != []
    ensures Forward(next, ls[1..]) && ls[0] != 0 && Get(next, ls[0]) == (if |ls| > 1 then ls[1..][0] else 0)
  {
    assert forall i :: 0 <= i < |ls| - 1 ==> ls[1..][i] == ls[i + 1];
  }

  lemma {:induction false} ChainIs(next: Links, ls: seq<nat>, n: nat)
    requires Forward(next, ls) && ls != [] && n >= |ls|
    ensures Chain(next, ls[0], n) == ls
    decreases |ls|
  {
    hide Forward;
    ForwardRest(next, ls);
    var rest := ls[1..];
    assert ls == [ls[0]] + rest;
    if rest != [] { ChainIs(next, rest, n - 1); }
  }

  /** A search for the least key ends in the first leaf. */
  lemma {:induction false} FirstLeaf(nodes: Nodes, at: Spot, h: nat, min: nat, top: bool)
    requires SubAt(nodes, at, h, min, top) && at.lo == 0
    ensures Leaves(nodes, at.off, h) != [] && Leaves(nodes, at.off, h)[0] == Down(nodes, at, 1, h).off
    decreases h
  {
    SubKids(nodes, at.off, h, at.lo, at.hi, min, top);
    NodeFacts(nodes, at.off, h, at.lo, at.hi, min, top);
    if h > 0 {
      var es := Entries(nodes[at.off]);
      assert Route(es, 1) == 0;
      hide Sub, Holds, Reach, Entries, Route, Kids, Within;
      KidValid(nodes, es, h - 1, at.lo, at.hi, min, 0);
      FirstLeaf(nodes, Below(nodes, at, 1), h - 1, min, false);
    }
  }

  /** Following the links from the leaf where a search for the least key ends, the whole tree is listed
      once, keys ascending. */
  lemma ChainAscends(nodes: Nodes, next: Links, prev: Links, top: Spot, h: nat, min: nat, n: nat)
    requires SubAt(nodes, top, h, min, true) && top.lo == 0
    requires Linked(next, prev, Leaves(nodes, top.off, h)) && n >= |Leaves(nodes, top.off, h)|
    ensures var ls := Chain(next, Down(nodes, top, 1, h).off, n);
      && ls == Leaves(nodes, top.off, h) && Within(InOrder(nodes, ls), 0, top.hi)
      && (set p | p in InOrder(nodes, ls)) == Holds(nodes, top.off, h)
  {
    hide Sub, Holds, Reach, Entries, Kids, Within, Leaves, Linked, Distinct, Down, Chain, InOrder;
    var ls := Leaves(nodes, top.off, h);
    FirstLeaf(nodes, top, h, min, true);
    LeavesDistinct(nodes, top.off, h, top.lo, top.hi, min, true);
    LinkedForward(next, prev, ls);
    ChainIs(next, ls, n);
    LeavesAscend(nodes, top.off, h, top.lo, top.hi, min, true);
  }
}
