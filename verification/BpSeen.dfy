/** What a search of the directory B+tree finds, whatever the shape of the tree: the descent follows
    the routing keys until it meets a leaf. */
module BpSeen {
  import opened BpPairs
  import opened BpShape
  import opened BpUpdate
  import opened BpFacts

  /** The child a search for `key` goes on to. */
  ghost function NextOf(n: Node, key: nat): nat
    requires Entries(n) != []
  {
    Entries(n)[Route(Entries(n), key)].item
  }

  /** A node that a search goes on from. */
  ghost predicate Inner(nodes: Nodes, off: nat) {
    off in nodes && !nodes[off].leaf && Entries(nodes[off]) != []
  }

  /** Where a search for `key` stands after `n` steps; a leaf ends it. */
  ghost function Landing(nodes: Nodes, off: nat, key: nat, n: nat): nat
    decreases n
  {
    if n == 0 || !Inner(nodes, off) then off else Landing(nodes, NextOf(nodes[off], key), key, n - 1)
  }

  /** A search for `key` from `off` ends in the leaf `leaf`. */
  ghost predicate Ends(nodes: Nodes, off: nat, key: nat, leaf: nat) {
    leaf in nodes && nodes[leaf].leaf && exists n: nat :: Landing(nodes, off, key, n) == leaf
  }

  /** ... and finds the item `item` there. */
  ghost predicate FindsIn(nodes: Nodes, off: nat, key: nat, item: nat, leaf: nat) {
    Ends(nodes, off, key, leaf) && Pair(key, item) in Entries(nodes[leaf])
  }

  ghost predicate Finds(nodes: Nodes, off: nat, key: nat, item: nat) {
    exists leaf :: FindsIn(nodes, off, key, item, leaf)
  }

  ghost predicate SearchEnds(nodes: Nodes, off: nat, key: nat) {
    exists leaf :: Ends(nodes, off, key, leaf)
  }

  /** Searches from `off` end, and find exactly the map `m`. */
  ghost predicate Sees(nodes: Nodes, off: nat, m: map<nat, nat>) {
    && (forall key: nat :: 0 < key <= MAX_KEY ==> SearchEnds(nodes, off, key))
    && forall key: nat, item: nat :: 0 < key <= MAX_KEY ==> (Finds(nodes, off, key, item) <==> key in m && m[key] == item)
  }

  lemma {:induction false} LandingStays(nodes: Nodes, off: nat, key: nat, n: nat, n': nat)
    requires n <= n' && !Inner(nodes, Landing(nodes, off, key, n))
    ensures Landing(nodes, off, key, n') == Landing(nodes, off, key, n)
    decreases n
  {
    if n > 0 && Inner(nodes, off) {
      LandingStays(nodes, NextOf(nodes[off], key), key, n - 1, n' - 1);
    }
  }

  /** A search ends in one leaf at most. */
  lemma EndsOnce(nodes: Nodes, off: nat, key: nat, a: nat, b: nat)
    requires Ends(nodes, off, key, a) && Ends(nodes, off, key, b)
    ensures a == b
  {
    var n: nat :| Landing(nodes, off, key, n) == a;
    var n': nat :| Landing(nodes, off, key, n') == b;
    hide Landing;
    if n <= n' {
      LandingStays(nodes, off, key, n, n');
    } else {
      LandingStays(nodes, off, key, n', n);
    }
  }

  lemma EndsHere(nodes: Nodes, off: nat, key: nat, leaf: nat)
    requires off in nodes && nodes[off].leaf
    ensures Ends(nodes, off, key, leaf) <==> leaf == off
  {
    assert Landing(nodes, off, key, 0) == off;
    if Ends(nodes, off, key, leaf) {
      var n: nat :| Landing(nodes, off, key, n) == leaf;
      LandingStays(nodes, off, key, 0, n);
    }
  }

  lemma EndsBelow(nodes: Nodes, off: nat, key: nat, leaf: nat)
    requires Inner(nodes, off)
    ensures Ends(nodes, off, key, leaf) <==> Ends(nodes, NextOf(nodes[off], key), key, leaf)
  {
    var kid := NextOf(nodes[off], key);
    if Ends(nodes, off, key, leaf) {
      var n: nat :| Landing(nodes, off, key, n) == leaf;
      assert n > 0;
      assert Landing(nodes, kid, key, n - 1) == leaf;
    }
    if Ends(nodes, kid, key, leaf) {
      var n: nat :| Landing(nodes, kid, key, n) == leaf;
      assert Landing(nodes, off, key, n + 1) == leaf;
    }
  }

  lemma FindsBelow(nodes: Nodes, off: nat, key: nat, item: nat)
    requires Inner(nodes, off)
    ensures var kid := NextOf(nodes[off], key);
      (Finds(nodes, off, key, item) <==> Finds(nodes, kid, key, item)) && (SearchEnds(nodes, off, key) <==> SearchEnds(nodes, kid, key))
  {
    hide Ends, NextOf;
    var kid := NextOf(nodes[off], key);
    forall leaf ensures Ends(nodes, off, key, leaf) <==> Ends(nodes, kid, key, leaf) {
      EndsBelow(nodes, off, key, leaf);
    }
    if Finds(nodes, off, key, item) {
      var leaf :| FindsIn(nodes, off, key, item, leaf);
      assert FindsIn(nodes, kid, key, item, leaf);
    }
    if Finds(nodes, kid, key, item) {
      var leaf :| FindsIn(nodes, kid, key, item, leaf);
      assert FindsIn(nodes, off, key, item, leaf);
    }
    if SearchEnds(nodes, off, key) {
      var leaf :| Ends(nodes, off, key, leaf);
      assert Ends(nodes, kid, key, leaf);
    }
    if SearchEnds(nodes, kid, key) {
      var leaf :| Ends(nodes, kid, key, leaf);
      assert Ends(nodes, off, key, leaf);
    }
  }

  lemma FindsHere(nodes: Nodes, off: nat, key: nat, item: nat)
    requires off in nodes && nodes[off].leaf
    ensures Finds(nodes, off, key, item) <==> Pair(key, item) in Entries(nodes[off])
    ensures SearchEnds(nodes, off, key)
  {
    hide Ends;
    forall leaf ensures Ends(nodes, off, key, leaf) <==> leaf == off {
      EndsHere(nodes, off, key, leaf);
    }
    if Pair(key, item) in Entries(nodes[off]) {
      assert FindsIn(nodes, off, key, item, off);
    }
    assert Ends(nodes, off, key, off);
  }

  // ------------------------------------------------------------ a valid subtree

  lemma NextIsKid(nodes: Nodes, off: nat, h: nat, lo: nat, hi: nat, min: nat, top: bool, key: nat)
    requires Sub(nodes, off, h, lo, hi, min, top) && h > 0
    ensures Inner(nodes, off)
    ensures var es := Entries(nodes[off]); var j := Route(es, key); var kid := NextOf(nodes[off], key);
      && es[j].item == kid && Sub(nodes, kid, h - 1, Low(es, j, lo), High(es, j, hi), min, false)
      && lo <= Low(es, j, lo) <= High(es, j, hi) <= hi && (lo < key <= hi ==> Low(es, j, lo) < key <= High(es, j, hi))
      && Reach(nodes, kid, h - 1) <= Reach(nodes, off, h) && off !in Reach(nodes, kid, h - 1)
  {
    hide Sub, Kids, Within, Reach, ReachAll, Holds, HoldsAll, Leaves, LeavesAll, Route;
    SubKids(nodes, off, h, lo, hi, min, top);
    NodeFacts(nodes, off, h, lo, hi, min, top);
    var es := Entries(nodes[off]);
    var j := Route(es, key);
    KidValid(nodes, es, h - 1, lo, hi, min, j);
    ChildBounds(es, j, lo, hi);
    KidReach(nodes, es, h - 1, j);
    if lo < key <= hi { RouteBounds(es, key, lo, hi); }
  }

  lemma KidReach(nodes: Nodes, es: seq<Pair>, h: nat, i: nat)
    requires i < |es|
    ensures Reach(nodes, es[i].item, h) <= ReachAll(nodes, es, h)
  {
    hide Reach;
  }

  /** Exactly one child holds a pair, the one that its key is routed to. */
  lemma HeldBelow(nodes: Nodes, off: nat, h: nat, lo: nat, hi: nat, min: nat, top: bool, p: Pair)
    requires Sub(nodes, off, h, lo, hi, min, top) && h > 0
    ensures Inner(nodes, off) && (p in Holds(nodes, off, h) <==> p in Holds(nodes, NextOf(nodes[off], p.key), h - 1))
  {
    hide Sub, Kids, Within, Reach, ReachAll, Holds, HoldsAll, Leaves, LeavesAll, Route, Low, High;
    SubKids(nodes, off, h, lo, hi, min, top);
    NextIsKid(nodes, off, h, lo, hi, min, top, p.key);
    var es := Entries(nodes[off]);
    var j := Route(es, p.key);
    if p in Holds(nodes, off, h) {
      HeldWithin(nodes, off, h, lo, hi, min, top, p);
      var i := HeldByKid(nodes, es, h - 1, p);
      KidValid(nodes, es, h - 1, lo, hi, min, i);
      HeldWithin(nodes, es[i].item, h - 1, Low(es, i, lo), High(es, i, hi), min, false, p);
      RouteBounds(es, p.key, lo, hi);
      assert i == j;
    }
    if p in Holds(nodes, es[j].item, h - 1) { HeldByAll(nodes, es, h - 1, j, p); }
  }

  lemma HeldByAll(nodes: Nodes, es: seq<Pair>, h: nat, i: nat, p: Pair)
    requires i < |es| && p in Holds(nodes, es[i].item, h)
    ensures p in HoldsAll(nodes, es, h)
  {
    hide Holds;
  }

  /** Searches of a valid subtree find exactly the pairs it holds. */
  lemma {:induction false} SubFinds(nodes: Nodes, off: nat, h: nat, lo: nat, hi: nat, min: nat, top: bool, key: nat, item: nat)
    requires Sub(nodes, off, h, lo, hi, min, top)
    ensures Finds(nodes, off, key, item) <==> Pair(key, item) in Holds(nodes, off, h)
    ensures SearchEnds(nodes, off, key)
    decreases h
  {
    hide *;
    NodeFacts(nodes, off, h, lo, hi, min, top);
    if h == 0 {
      SubKids(nodes, off, h, lo, hi, min, top);
      FindsHere(nodes, off, key, item);
    } else {
      NextIsKid(nodes, off, h, lo, hi, min, top, key);
      var es := Entries(nodes[off]);
      var j := Route(es, key);
      FindsBelow(nodes, off, key, item);
      HeldBelow(nodes, off, h, lo, hi, min, top, Pair(key, item));
      SubFinds(nodes, NextOf(nodes[off], key), h - 1, Low(es, j, lo), High(es, j, hi), min, false, key, item);
    }
  }

  lemma SubSees(nodes: Nodes, off: nat, h: nat, lo: nat, hi: nat, min: nat, top: bool)
    requires Sub(nodes, off, h, lo, hi, min, top)
    ensures Sees(nodes, off, MapOf(Holds(nodes, off, h)))
  {
    hide Sub, Holds, MapOf, Finds, SearchEnds;
    var s := Holds(nodes, off, h);
    HoldsUnique(nodes, off, h, lo, hi, min, top);
    forall key: nat, item: nat | 0 < key <= MAX_KEY
      ensures SearchEnds(nodes, off, key) && (Finds(nodes, off, key, item) <==> key in MapOf(s) && MapOf(s)[key] == item)
    {
      SubFinds(nodes, off, h, lo, hi, min, top, key, item);
      MapOfIs(s, key);
    }
    forall key: nat | 0 < key <= MAX_KEY ensures SearchEnds(nodes, off, key) {
      SubFinds(nodes, off, h, lo, hi, min, top, key, 0);
    }
  }

  /** The entries of any node of a subtree lie in its interval. */
  lemma {:induction false} NodeWithin(nodes: Nodes, off: nat, h: nat, lo: nat, hi: nat, min: nat, top: bool, x: nat)
    requires Sub(nodes, off, h, lo, hi, min, top) && x in Reach(nodes, off, h)
    ensures x in nodes && x != 0 && Shaped(nodes[x]) && Within(Entries(nodes[x]), lo, hi) && |Entries(nodes[x])| == Width(nodes[x])
    ensures !nodes[x].leaf ==> |Entries(nodes[x])| >= 2 && h > 0
    ensures h == 1 && !nodes[x].leaf ==> x == off
    decreases h
  {
    hide Sub, Kids, Reach, ReachAll, Holds, HoldsAll, Leaves, LeavesAll, Shaped, Within, Low, High;
    SubKids(nodes, off, h, lo, hi, min, top);
    NodeFacts(nodes, off, h, lo, hi, min, top);
    if h == 0 {
      ReachOfLeaf(nodes, off);
    } else if x != off {
      var es := Entries(nodes[off]);
      var i := ReachedByKid(nodes, es, h - 1, x);
      KidValid(nodes, es, h - 1, lo, hi, min, i);
      ChildBounds(es, i, lo, hi);
      NodeWithin(nodes, es[i].item, h - 1, Low(es, i, lo), High(es, i, hi), min, false, x);
      WithinWider(Entries(nodes[x]), Low(es, i, lo), High(es, i, hi), lo, hi);
    }
  }

  lemma ReachOfLeaf(nodes: Nodes, off: nat)
    ensures Reach(nodes, off, 0) <= {off}
  {
  }

  lemma WithinWider(es: seq<Pair>, lo: nat, hi: nat, lo': nat, hi': nat)
    requires Within(es, lo, hi) && lo' <= lo && hi <= hi'
    ensures Within(es, lo', hi')
  {
  }

  // ------------------------------------------- a subtree hung on one of its own nodes

  /** A search for `key` passes node `x`, at most `h` steps down. */
  ghost predicate Passes(nodes: Nodes, off: nat, key: nat, h: nat, x: nat)
    decreases h
  {
    off == x || (h > 0 && Inner(nodes, off) && Passes(nodes, NextOf(nodes[off], key), key, h - 1, x))
  }

  /** Node `x` has got one more child, `y`, behind the others. */
  ghost predicate Hung(nodes: Nodes, nodes': Nodes, x: nat, y: Pair) {
    && Inner(nodes, x) && x in nodes' && nodes' == nodes[x := nodes'[x]] && !nodes'[x].leaf
    && Entries(nodes'[x]) == Entries(nodes[x]) + [y]
  }

  ghost function LastKey(n: Node): nat {
    Bound(Entries(n), 0)
  }

  /** Routing with one more child: beyond what was the last key, the search turns to it. */
  lemma RouteMore(es: seq<Pair>, y: Pair, key: nat)
    requires |es| > 0 && Ascending(es)
    ensures Route(es + [y], key) == if key > es[|es| - 1].key then |es| else Route(es, key)
  {
    var n := |es|;
    assert (es + [y])[..n] == es;
    var s := es[..n - 1];
    RankSplits(es, key);
    RankSplits(s, key);
    assert forall i :: 0 <= i < |s| ==> s[i] == es[i];
    if key > es[n - 1].key {
      RankIs(es, key, n);
    } else {
      RankIs(es, key, Rank(s, key));
    }
  }

  lemma NextOfHung(nodes: Nodes, nodes': Nodes, x: nat, y: Pair, key: nat)
    requires Hung(nodes, nodes', x, y) && Ascending(Entries(nodes[x]))
    ensures Inner(nodes', x)
    ensures NextOf(nodes'[x], key) == if key > LastKey(nodes[x]) then y.item else NextOf(nodes[x], key)
  {
    hide Ascending, Route;
    var es := Entries(nodes[x]);
    RouteMore(es, y, key);
    var j := Route(es, key);
    assert (es + [y])[j] == es[j];
  }

  /** What a search finds after the subtree `y` has been hung on node `x`. */
  lemma {:induction false} HungFinds(nodes: Nodes, nodes': Nodes, off: nat, h: nat, lo: nat, hi: nat, min: nat, top: bool,
                                     x: nat, y: Pair, key: nat, item: nat)
    requires Sub(nodes, off, h, lo, hi, min, top) && x in Reach(nodes, off, h) && Hung(nodes, nodes', x, y)
    ensures if Passes(nodes, off, key, h, x) && key > LastKey(nodes[x])
      then (Finds(nodes', off, key, item) <==> Finds(nodes', y.item, key, item)) &&
        (SearchEnds(nodes', off, key) <==> SearchEnds(nodes', y.item, key))
      else (Finds(nodes', off, key, item) <==> Pair(key, item) in Holds(nodes, off, h)) && SearchEnds(nodes', off, key)
    decreases h
  {
    hide Sub, Reach, Holds, Finds, SearchEnds, Hung, NextOf, Entries, Low, High, Within, Shaped, Ascending, LastKey, Route;
    NodeWithin(nodes, off, h, lo, hi, min, top, x);
    WithinIsAscending(Entries(nodes[x]), lo, hi);
    HungNodes(nodes, nodes', x, y);
    if h == 0 {
      ReachOfLeaf(nodes, off);
      NodeFacts(nodes, off, h, lo, hi, min, top);
      assert false;
    } else {
      NextIsKid(nodes, off, h, lo, hi, min, top, key);
      var es := Entries(nodes[off]);
      var j := Route(es, key);
      var kid := NextOf(nodes[off], key);
      HeldBelow(nodes, off, h, lo, hi, min, top, Pair(key, item));
      if off == x {
        NextOfHung(nodes, nodes', x, y, key);
        FindsBelow(nodes', x, key, item);
        if key <= LastKey(nodes[x]) {
          KidUntouched(nodes, nodes', kid, h - 1, Low(es, j, lo), High(es, j, hi), min, x, key, item);
        }
      } else {
        FindsBelow(nodes', off, key, item);
        if x in Reach(nodes, kid, h - 1) {
          HungFinds(nodes, nodes', kid, h - 1, Low(es, j, lo), High(es, j, hi), min, false, x, y, key, item);
        } else {
          KidUntouched(nodes, nodes', kid, h - 1, Low(es, j, lo), High(es, j, hi), min, x, key, item);
          NotPassed(nodes, kid, h - 1, Low(es, j, lo), High(es, j, hi), min, false, x, key);
        }
      }
    }
  }

  lemma WithinIsAscending(es: seq<Pair>, lo: nat, hi: nat)
    requires Within(es, lo, hi)
    ensures Ascending(es)
  {
  }

  lemma HungNodes(nodes: Nodes, nodes': Nodes, x: nat, y: Pair)
    requires Hung(nodes, nodes', x, y)
    ensures x in nodes' && nodes' == nodes[x := nodes'[x]] && Inner(nodes, x)
  {
  }

  lemma KidUntouched(nodes: Nodes, nodes': Nodes, kid: nat, h: nat, lo: nat, hi: nat, min: nat, x: nat, key: nat, item: nat)
    requires Sub(nodes, kid, h, lo, hi, min, false) && x !in Reach(nodes, kid, h) && x in nodes' && nodes' == nodes[x := nodes'[x]]
    ensures Finds(nodes', kid, key, item) <==> Pair(key, item) in Holds(nodes, kid, h)
    ensures SearchEnds(nodes', kid, key)
  {
    hide Sub, Reach, Holds, Finds, SearchEnds;
    Frame(nodes, nodes', kid, h, lo, hi, min, false);
    SubFinds(nodes', kid, h, lo, hi, min, false, key, item);
  }

  lemma {:induction false} NotPassed(nodes: Nodes, off: nat, h: nat, lo: nat, hi: nat, min: nat, top: bool, x: nat, key: nat)
    requires Sub(nodes, off, h, lo, hi, min, top)
    ensures Passes(nodes, off, key, h, x) ==> x in Reach(nodes, off, h)
    decreases h
  {
    hide Sub, Reach, NextOf, Low, High, Route;
    NodeFacts(nodes, off, h, lo, hi, min, top);
    SelfReached(nodes, off, h);
    if h > 0 {
      NextIsKid(nodes, off, h, lo, hi, min, top, key);
      var es := Entries(nodes[off]);
      var j := Route(es, key);
      NotPassed(nodes, NextOf(nodes[off], key), h - 1, Low(es, j, lo), High(es, j, hi), min, false, x, key);
    }
  }

  // ----------------------------------------------------------- the right border

  /** Beyond its interval a subtree is searched along its right border. */
  lemma {:induction false} RightBorder(nodes: Nodes, off: nat, h: nat, lo: nat, hi: nat, min: nat, top: bool, key: nat, x: nat)
    requires Sub(nodes, off, h, lo, hi, min, top) && key >= hi
    ensures Passes(nodes, off, key, h, x) <==> Passes(nodes, off, hi, h, x)
    decreases h
  {
    hide Sub, NextOf, Low, Reach, Within;
    if h > 0 {
      NextIsKid(nodes, off, h, lo, hi, min, top, key);
      SecondLast(nodes, off, h, lo, hi, min, top);
      LastRoute(nodes, off, h, lo, hi, min, top, key);
      LastRoute(nodes, off, h, lo, hi, min, top, hi);
      var es := Entries(nodes[off]);
      RightBorder(nodes, NextOf(nodes[off], key), h - 1, Low(es, |es| - 1, lo), hi, min, false, key, x);
    }
  }

  lemma LastRoute(nodes: Nodes, off: nat, h: nat, lo: nat, hi: nat, min: nat, top: bool, key: nat)
    requires Sub(nodes, off, h, lo, hi, min, top) && h > 0
    requires |Entries(nodes[off])| >= 2 ==> key > Entries(nodes[off])[|Entries(nodes[off])| - 2].key
    ensures var es := Entries(nodes[off]);
      && |es| >= 2 && Route(es, key) == |es| - 1 && Inner(nodes, off) && NextOf(nodes[off], key) == es[|es| - 1].item
      && High(es, |es| - 1, hi) == hi && Low(es, |es| - 1, lo) == es[|es| - 2].key
      && es[|es| - 2].key < hi
  {
    hide Sub, Holds, Reach, HoldsAll, ReachAll, Leaves, LeavesAll, Kids, Within, Shaped, Route;
    SubKids(nodes, off, h, lo, hi, min, top);
    NodeFacts(nodes, off, h, lo, hi, min, top);
    RouteLast(Entries(nodes[off]), lo, hi, key);
  }

  lemma RouteLast(es: seq<Pair>, lo: nat, hi: nat, key: nat)
    requires Within(es, lo, hi) && |es| >= 2 && key > es[|es| - 2].key
    ensures Route(es, key) == |es| - 1 && es[|es| - 2].key < hi
  {
    var s := es[..|es| - 1];
    assert forall i :: 0 <= i < |s| ==> s[i] == es[i];
    assert es[|es| - 2].key < es[|es| - 1].key;
    RankIs(s, key, |s|);
  }

  /** The second-last key lies below the upper bound. */
  lemma SecondLast(nodes: Nodes, off: nat, h: nat, lo: nat, hi: nat, min: nat, top: bool)
    requires Sub(nodes, off, h, lo, hi, min, top) && h > 0
    ensures |Entries(nodes[off])| >= 2 && Entries(nodes[off])[|Entries(nodes[off])| - 2].key < hi
  {
    hide Sub, Holds, Reach, HoldsAll, ReachAll, Leaves, LeavesAll, Kids, Shaped;
    SubKids(nodes, off, h, lo, hi, min, top);
    var es := Entries(nodes[off]);
    assert es[|es| - 2].key < es[|es| - 1].key;
  }

  /** A node on the right border is passed by all keys between its last one and the upper bound. */
  lemma {:induction false} BorderPassed(nodes: Nodes, off: nat, h: nat, lo: nat, hi: nat, min: nat, top: bool, x: nat, key: nat)
    requires Sub(nodes, off, h, lo, hi, min, top) && Passes(nodes, off, hi, h, x) && Inner(nodes, x)
    requires LastKey(nodes[x]) < key <= hi
    ensures Passes(nodes, off, key, h, x)
    decreases h
  {
    hide Sub, NextOf, Reach, Within, LastKey, Low, High;
    if off != x {
      NextIsKid(nodes, off, h, lo, hi, min, top, hi);
      SecondLast(nodes, off, h, lo, hi, min, top);
      LastRoute(nodes, off, h, lo, hi, min, top, hi);
      var es := Entries(nodes[off]);
      var kid, low := es[|es| - 1].item, es[|es| - 2].key;
      NotPassed(nodes, kid, h - 1, low, hi, min, false, x, hi);
      NodeWithin(nodes, kid, h - 1, low, hi, min, false, x);
      AboveLow(nodes[x], low, hi);
      LastRoute(nodes, off, h, lo, hi, min, top, key);
      BorderPassed(nodes, kid, h - 1, low, hi, min, false, x, key);
    }
  }

  lemma AboveLow(n: Node, lo: nat, hi: nat)
    requires Within(Entries(n), lo, hi) && Entries(n) != []
    ensures lo < LastKey(n) <= hi
  {
  }

  // --------------------------------------- the upper half of a root hung on a node

  /** The root `r` has been halved at the key `mid`, with `s` as its upper half. */
  ghost predicate RootHalves(nodes: Nodes, r: nat, s: nat, h: nat, mid: nat, min: nat) {
    && Sub(nodes, r, h, 0, mid, min, false) && Sub(nodes, s, h, mid, MAX_KEY, min, false)
    && Reach(nodes, r, h) !! Reach(nodes, s, h)
  }

  /** Node `x` of the halves has been rewritten: if it is one of the lower half, it has got the upper half
      as its last child. */
  ghost predicate Rehung(nodes: Nodes, nodes': Nodes, r: nat, s: nat, h: nat, x: nat, y: Pair) {
    && x in Reach(nodes, r, h) + Reach(nodes, s, h) && x in nodes && x in nodes' && nodes' == nodes[x := nodes'[x]]
    && y.item == s && (x in Reach(nodes, r, h) ==> Hung(nodes, nodes', x, y))
  }

  /** No pair lies between the last key of node `x` and `mid`. */
  ghost predicate NothingBehind(pairs: set<Pair>, nodes: Nodes, x: nat, mid: nat) {
    x in nodes && forall p :: p in pairs ==> !(LastKey(nodes[x]) < p.key <= mid)
  }

  /** What a search from the lower half then finds. */
  lemma RehungFinds(nodes: Nodes, nodes': Nodes, r: nat, s: nat, h: nat, mid: nat, min: nat, x: nat, y: Pair, p: Pair)
    requires RootHalves(nodes, r, s, h, mid, min) && Rehung(nodes, nodes', r, s, h, x, y)
    ensures SearchEnds(nodes', r, p.key)
    ensures Finds(nodes', r, p.key, p.item) <==>
      if Passes(nodes, r, p.key, h, x) && p.key > LastKey(nodes[x]) then p in Holds(nodes, s, h) else p in Holds(nodes, r, h)
  {
    hide Sub, Reach, Holds, Finds, SearchEnds, Hung, LastKey, Passes;
    if x in Reach(nodes, r, h) {
      HungFinds(nodes, nodes', r, h, 0, mid, min, false, x, y, p.key, p.item);
      KidUntouched(nodes, nodes', s, h, mid, MAX_KEY, min, x, p.key, p.item);
    } else {
      KidUntouched(nodes, nodes', r, h, 0, mid, min, x, p.key, p.item);
      NotPassed(nodes, r, h, 0, mid, min, false, x, p.key);
    }
  }

  /** When it is still the pairs of both halves. */
  ghost predicate StillThere(pairs: set<Pair>, nodes: Nodes, r: nat, h: nat, mid: nat, x: nat) {
    Passes(nodes, r, mid, h, x) && NothingBehind(pairs, nodes, x, mid)
  }

  lemma FoundAgain(nodes: Nodes, nodes': Nodes, r: nat, s: nat, h: nat, mid: nat, min: nat, x: nat, y: Pair, p: Pair)
    requires RootHalves(nodes, r, s, h, mid, min) && Rehung(nodes, nodes', r, s, h, x, y)
    requires StillThere(Holds(nodes, r, h) + Holds(nodes, s, h), nodes, r, h, mid, x)
    ensures Finds(nodes', r, p.key, p.item) <==> p in Holds(nodes, r, h) + Holds(nodes, s, h)
  {
    hide Sub, Reach, Holds, Finds, SearchEnds, Hung, LastKey, Passes;
    RehungFinds(nodes, nodes', r, s, h, mid, min, x, y, p);
    NotPassed(nodes, r, h, 0, mid, min, false, x, mid);
    NodeWithin(nodes, r, h, 0, mid, min, false, x);
    HungNodes(nodes, nodes', x, y);
    AboveLow(nodes[x], 0, mid);
    if p in Holds(nodes, s, h) {
      HeldWithin(nodes, s, h, mid, MAX_KEY, min, false, p);
      RightBorder(nodes, r, h, 0, mid, min, false, p.key, x);
    }
    if p in Holds(nodes, r, h) {
      HeldWithin(nodes, r, h, 0, mid, min, false, p);
    }
  }

  /** Some pair of a subtree, if its leaves are not empty. */
  lemma {:induction false} SomePair(nodes: Nodes, off: nat, h: nat, lo: nat, hi: nat, min: nat) returns (p: Pair)
    requires Sub(nodes, off, h, lo, hi, min, false) && min >= 1
    ensures p in Holds(nodes, off, h)
    decreases h
  {
    hide Sub, Kids, Holds, HoldsAll, Reach, ReachAll, Leaves, LeavesAll, Within, Low, High;
    SubKids(nodes, off, h, lo, hi, min, false);
    NodeFacts(nodes, off, h, lo, hi, min, false);
    var es := Entries(nodes[off]);
    if h == 0 {
      p := es[0];
    } else {
      KidValid(nodes, es, h - 1, lo, hi, min, 0);
      p := SomePair(nodes, es[0].item, h - 1, Low(es, 0, lo), High(es, 0, hi), min);
      HeldByAll(nodes, es, h - 1, 0, p);
    }
  }

  /** A pair that is no longer found when the condition fails. */
  lemma Missed(nodes: Nodes, nodes': Nodes, r: nat, s: nat, h: nat, mid: nat, min: nat, x: nat, y: Pair) returns (p: Pair)
    requires RootHalves(nodes, r, s, h, mid, min) && Rehung(nodes, nodes', r, s, h, x, y) && min >= 1
    requires !StillThere(Holds(nodes, r, h) + Holds(nodes, s, h), nodes, r, h, mid, x)
    ensures p in Holds(nodes, r, h) + Holds(nodes, s, h) && !Finds(nodes', r, p.key, p.item) && 0 < p.key <= MAX_KEY
  {
    hide Sub, Reach, Holds, Finds, SearchEnds, Hung, LastKey, Passes;
    var pairs := Holds(nodes, r, h) + Holds(nodes, s, h);
    p := SomePair(nodes, s, h, mid, MAX_KEY, min);
    HeldWithin(nodes, s, h, mid, MAX_KEY, min, false, p);
    if !Passes(nodes, r, mid, h, x) {
      RightBorder(nodes, r, h, 0, mid, min, false, p.key, x);
      RehungFinds(nodes, nodes', r, s, h, mid, min, x, y, p);
      if p in Holds(nodes, r, h) { HeldWithin(nodes, r, h, 0, mid, min, false, p); }
    } else {
      NotPassed(nodes, r, h, 0, mid, min, false, x, mid);
      HungNodes(nodes, nodes', x, y);
      p :| p in pairs && LastKey(nodes[x]) < p.key <= mid;
      BorderPassed(nodes, r, h, 0, mid, min, false, x, p.key);
      RehungFinds(nodes, nodes', r, s, h, mid, min, x, y, p);
      if p in Holds(nodes, s, h) { HeldWithin(nodes, s, h, mid, MAX_KEY, min, false, p); }
      HeldWithin(nodes, r, h, 0, mid, min, false, p);
    }
  }

  lemma HalvesUnique(nodes: Nodes, r: nat, s: nat, h: nat, mid: nat, min: nat)
    requires RootHalves(nodes, r, s, h, mid, min)
    ensures Unique(Holds(nodes, r, h) + Holds(nodes, s, h))
  {
    hide Sub, Reach, Holds;
    var pairs := Holds(nodes, r, h) + Holds(nodes, s, h);
    forall p, q | p in pairs && q in pairs && p.key == q.key ensures p == q {
      if p in Holds(nodes, r, h) { HeldWithin(nodes, r, h, 0, mid, min, false, p); } else { HeldWithin(nodes, s, h, mid, MAX_KEY, min, false, p); }
      if q in Holds(nodes, r, h) { HeldWithin(nodes, r, h, 0, mid, min, false, q); } else { HeldWithin(nodes, s, h, mid, MAX_KEY, min, false, q); }
      if p in Holds(nodes, r, h) && q in Holds(nodes, r, h) {
        HeldOnce(nodes, r, h, 0, mid, min, false, p, q);
      } else {
        HeldOnce(nodes, s, h, mid, MAX_KEY, min, false, p, q);
      }
    }
  }

  /** Searches see the pairs of both halves if and only if node `x` lies on the right border of the lower half,
      and no key lies behind its last one. */
  lemma RehungSees(nodes: Nodes, nodes': Nodes, r: nat, s: nat, h: nat, mid: nat, min: nat, x: nat, y: Pair)
    requires RootHalves(nodes, r, s, h, mid, min) && Rehung(nodes, nodes', r, s, h, x, y) && min >= 1
    ensures var pairs := Holds(nodes, r, h) + Holds(nodes, s, h);
      Sees(nodes', r, MapOf(pairs)) <==> StillThere(pairs, nodes, r, h, mid, x)
  {
    hide RootHalves, Holds, Finds, SearchEnds, Rehung, StillThere, MapOf;
    var pairs := Holds(nodes, r, h) + Holds(nodes, s, h);
    HalvesUnique(nodes, r, s, h, mid, min);
    if StillThere(pairs, nodes, r, h, mid, x) {
      forall key: nat | 0 < key <= MAX_KEY ensures SearchEnds(nodes', r, key) {
        RehungFinds(nodes, nodes', r, s, h, mid, min, x, y, Pair(key, 0));
      }
      forall key: nat, item: nat | 0 < key <= MAX_KEY
        ensures Finds(nodes', r, key, item) <==> key in MapOf(pairs) && MapOf(pairs)[key] == item
      {
        FoundAgain(nodes, nodes', r, s, h, mid, min, x, y, Pair(key, item));
        MapOfIs(pairs, key);
      }
    } else {
      var p := Missed(nodes, nodes', r, s, h, mid, min, x, y);
      MapOfIs(pairs, p.key);
      assert p == Pair(p.key, p.item);
    }
  }

  // ------------------------------------------------------------- nodes of a tree

  lemma {:induction false} DownReached(nodes: Nodes, at: Spot, h: nat, min: nat, top: bool, key: nat, d: nat)
    requires SubAt(nodes, at, h, min, top) && d <= h
    ensures Down(nodes, at, key, d).off in Reach(nodes, at.off, h)
    decreases d
  {
    hide Sub, Reach, Low, High, Route;
    SubAtIs(nodes, at, h, min, top);
    NodeFacts(nodes, at.off, h, at.lo, at.hi, min, top);
    if d == 0 {
      SelfReached(nodes, at.off, h);
    } else {
      NextIsKid(nodes, at.off, h, at.lo, at.hi, min, top, key);
      DownReached(nodes, Below(nodes, at, key), h - 1, min, false, key, d - 1);
    }
  }

  /** The root of a subtree is nobody's child in it. */
  lemma {:induction false} NoChild(nodes: Nodes, off: nat, h: nat, lo: nat, hi: nat, min: nat, top: bool, x: nat, i: nat)
    requires Sub(nodes, off, h, lo, hi, min, top) && x in Reach(nodes, off, h) && x in nodes && !nodes[x].leaf && i < |Entries(nodes[x])|
    ensures Entries(nodes[x])[i].item in Reach(nodes, off, h) && Entries(nodes[x])[i].item != off
    decreases h
  {
    hide Sub, Kids, Reach, ReachAll, Holds, HoldsAll, Leaves, LeavesAll, Shaped, Within, Low, High;
    SubKids(nodes, off, h, lo, hi, min, top);
    NodeFacts(nodes, off, h, lo, hi, min, top);
    if h == 0 {
      ReachOfLeaf(nodes, off);
      assert false;
    } else {
      var es := Entries(nodes[off]);
      if x == off {
        KidValid(nodes, es, h - 1, lo, hi, min, i);
        NodeFacts(nodes, es[i].item, h - 1, Low(es, i, lo), High(es, i, hi), min, false);
        SelfReached(nodes, es[i].item, h - 1);
        KidReach(nodes, es, h - 1, i);
      } else {
        var j := ReachedByKid(nodes, es, h - 1, x);
        KidValid(nodes, es, h - 1, lo, hi, min, j);
        NoChild(nodes, es[j].item, h - 1, Low(es, j, lo), High(es, j, hi), min, false, x, i);
        KidReach(nodes, es, h - 1, j);
      }
    }
  }
}
