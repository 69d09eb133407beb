/** What offsets left on the stack by a failed update do to an insertion that splits the root. */
module BpStale {
  import opened BpPairs
  import opened BpShape
  import opened BpUpdate
  import opened BpSplit
  import opened BpLeaf
  import opened BpFacts
  import opened BpSeen
  import opened BpChain
  import opened BpTree

  /** The node above the leaf of `key`, which a failed update leaves on top of the stack. */
  ghost function LeafParent(m: Master, key: nat): nat
    requires m.height >= 1
    reads m
  {
    Down(m.nodes, m.Top(), key, m.height - 1).off
  }

  /** An update of the missing key `absent`, and then the insertion of a key that splits the root. Searches see the
      right map afterwards when the tree has height 1. In a higher one they see nothing behind the middle of the
      root when `absent` belongs to a node with room that is neither on the path of the new key nor in the
      middle of the root. */
  method UpdateThenInsert(m: Master, absent: nat, key: nat, value: nat)
    requires m.Valid() && 0 < key <= MAX_KEY && m.SplitsRoot(key) && 0 < absent <= MAX_KEY && absent !in m.Contents()
    modifies m
    ensures old(m.height) == 1 ==> Sees(m.nodes, m.root, old(m.Contents())[key := value])
    ensures old(m.height) > 1 && old(OffMiddle(m.nodes, m.Top(), key, m.height, LeafParent(m, absent))) ==>
      forall k, item :: k > old(m.MiddleKey()) ==> !Finds(m.nodes, m.root, k, item)
  {
    hide m.Sound, m.Contents;
    hide PathFull, StackOk, OnStack, Sees, Finds, OffMiddle, Middle, Down;
    Startable(m);
    ghost var nodes0, top, h := m.nodes, m.Top(), m.height;
    var found := m.UpdateKey(absent, value);
    Climbable(m);
    TopOfStack(nodes0, top, absent, m.stack, h);
    var res, cur := m.InsertKey(key, value, false);
  }

  lemma TopOfStack(nodes: Nodes, top: Spot, key: nat, stack: seq<nat>, h: nat)
    requires OnStack(nodes, top, key, [], stack) && |stack| == h >= 1
    ensures stack[|stack| - 1] == Down(nodes, top, key, h - 1).off
  {
    assert stack[0 + (h - 1)] == Down(nodes, top, key, h - 1).off;
  }

  lemma Startable(m: Master)
    requires m.Valid()
    ensures m.Ready()
  {
  }

  lemma Climbable(m: Master)
    requires m.Sound() && StackOk(m.nodes, m.root, m.height, m.stack) && |m.stack| == m.height
    ensures m.Ready()
  {
    hide Sub, Linked, Leaves, Holds, StackOk;
    SubAtIs(m.nodes, m.Top(), m.height, m.min, true);
    Shallow(m.nodes, m.root, m.height, m.min);
  }

  // ------------------------------------------------------------ a tree of height 2

  const FIRST_LEAF: nat := 1000
  const LAST: nat := FANOUT - 1

  /** Leaf number `t` holds even keys, as many as it can. */
  function LeafPairs(t: nat): (es: seq<Pair>)
    ensures |es| == FANOUT && forall j :: 0 <= j < FANOUT ==> es[j] == Pair(2 * (t * FANOUT + j + 1), 0)
  {
    seq(FANOUT, j requires j >= 0 => Pair(2 * (t * FANOUT + j + 1), 0))
  }

  /** The first child of the root is full, the others are half full. */
  function KidWidth(c: nat): nat {
    if c == 0 then FANOUT else HALF
  }

  /** Child `c` of the root has the leaves from c * FANOUT on. */
  function KidPairs(c: nat): (es: seq<Pair>)
    ensures |es| == KidWidth(c)
    ensures forall l :: 0 <= l < |es| ==> es[l] == Pair(2 * FANOUT * (c * FANOUT + l + 1), FIRST_LEAF + c * FANOUT + l)
  {
    seq(KidWidth(c), l requires l >= 0 => Pair(2 * FANOUT * (c * FANOUT + l + 1), FIRST_LEAF + c * FANOUT + l))
  }

  function RootPairs(): (es: seq<Pair>)
    ensures |es| == FANOUT && forall c :: 0 <= c < FANOUT ==> es[c] == Pair(2 * FANOUT * (c + 1) * FANOUT, c + 2)
  {
    seq(FANOUT, c requires c >= 0 => Pair(2 * FANOUT * (c + 1) * FANOUT, c + 2))
  }

  /** The root is node 1, its children are the nodes after it. */
  ghost predicate TwoLevels(nodes: Nodes) {
    && 1 in nodes && nodes[1] == IndexNode(true, RootPairs())
    && (forall c :: 0 <= c < FANOUT ==> IsKid(nodes, c))
    && forall t :: 0 <= t < FANOUT * FANOUT ==> IsLeaf(nodes, t)
  }

  ghost predicate IsKid(nodes: Nodes, c: nat) {
    c + 2 in nodes && nodes[c + 2] == IndexNode(false, KidPairs(c))
  }

  ghost predicate IsLeaf(nodes: Nodes, t: nat) {
    FIRST_LEAF + t in nodes && nodes[FIRST_LEAF + t] == LeafNode(false, LeafPairs(t))
  }

  /** The interval of child `c`. */
  ghost function KidLow(c: nat): nat {
    2 * FANOUT * c * FANOUT
  }

  ghost function KidHigh(c: nat): nat {
    if c == LAST then MAX_KEY else 2 * FANOUT * (c + 1) * FANOUT
  }

  lemma RootBounds(c: nat)
    requires c < FANOUT
    ensures Low(RootPairs(), c, 0) == KidLow(c) && High(RootPairs(), c, MAX_KEY) == KidHigh(c)
    ensures RootPairs()[c].item == c + 2
  {
    var es := RootPairs();
    assert c > 0 ==> es[c - 1] == Pair(2 * FANOUT * c * FANOUT, c + 1);
  }

  lemma LeafOfKid(nodes: Nodes, c: nat, l: nat)
    requires TwoLevels(nodes) && c < FANOUT && l < KidWidth(c)
    ensures var es, t := KidPairs(c), c * FANOUT + l;
      && Sub(nodes, es[l].item, 0, Low(es, l, KidLow(c)), High(es, l, KidHigh(c)), HALF, false)
      && Reach(nodes, es[l].item, 0) == {FIRST_LEAF + t} && Holds(nodes, es[l].item, 0) == Pairs(LeafPairs(t))
  {
    var es, t := KidPairs(c), c * FANOUT + l;
    assert IsLeaf(nodes, t);
    assert l > 0 ==> es[l - 1].key == 2 * FANOUT * t;
    assert Low(es, l, KidLow(c)) == 2 * FANOUT * t && High(es, l, KidHigh(c)) >= 2 * FANOUT * (t + 1);
    LeafWithin(t, High(es, l, KidHigh(c)));
    hide *;
    LeafValid(nodes, FIRST_LEAF + t, false, LeafPairs(t), Low(es, l, KidLow(c)), High(es, l, KidHigh(c)), HALF);
  }

  lemma LeafWithin(t: nat, hi: nat)
    requires hi >= 2 * FANOUT * (t + 1)
    ensures Within(LeafPairs(t), 2 * FANOUT * t, hi)
  {
  }

  lemma KidWithin(c: nat)
    requires c < FANOUT
    ensures Within(KidPairs(c), KidLow(c), KidHigh(c))
  {
  }

  /** The offsets of child `c` and of its leaves. */
  ghost predicate BelowKid(c: nat, x: nat) {
    x == c + 2 || FIRST_LEAF + c * FANOUT <= x < FIRST_LEAF + (c + 1) * FANOUT
  }

  lemma KidOfRoot(nodes: Nodes, c: nat)
    requires TwoLevels(nodes) && c < FANOUT
    ensures Sub(nodes, c + 2, 1, KidLow(c), KidHigh(c), HALF, false)
    ensures Holds(nodes, c + 2, 1) == HoldsAll(nodes, KidPairs(c), 0)
    ensures forall x :: x in Reach(nodes, c + 2, 1) ==> BelowKid(c, x)
  {
    var es := KidPairs(c);
    assert IsKid(nodes, c);
    hide TwoLevels, Sub, Reach, Holds, Within, KidLow, KidHigh, Shaped, IndexNode, LeafPairs, Low, High, Entries;
    IndexNodeIs(false, es);
    KidWithin(c);
    forall l | 0 <= l < |es|
      ensures Sub(nodes, es[l].item, 0, Low(es, l, KidLow(c)), High(es, l, KidHigh(c)), HALF, false)
      ensures Reach(nodes, es[l].item, 0) == {es[l].item}
    {
      LeafOfKid(nodes, c, l);
    }
    assert Kids(nodes, es, 0, KidLow(c), KidHigh(c), HALF);
    assert c + 2 !in ReachAll(nodes, es, 0);
    IndexValid(nodes, c + 2, es, 1, KidLow(c), KidHigh(c), HALF, false);
  }

  lemma RootWithin()
    ensures Within(RootPairs(), 0, MAX_KEY)
  {
  }

  lemma TreeValid(nodes: Nodes)
    requires TwoLevels(nodes)
    ensures Sub(nodes, 1, 2, 0, MAX_KEY, HALF, true) && Holds(nodes, 1, 2) == HoldsAll(nodes, RootPairs(), 1)
  {
    var es := RootPairs();
    hide Sub, Reach, Holds, Within, KidLow, KidHigh, Shaped, IndexNode, Low, High, Entries, IsKid, IsLeaf;
    IndexNodeIs(true, es);
    RootWithin();
    forall c | 0 <= c < FANOUT
      ensures Sub(nodes, es[c].item, 1, Low(es, c, 0), High(es, c, MAX_KEY), HALF, false) && es[c].item == c + 2
      ensures forall x :: x in Reach(nodes, es[c].item, 1) ==> BelowKid(c, x)
    {
      RootBounds(c);
      KidOfRoot(nodes, c);
    }
    assert Kids(nodes, es, 1, 0, MAX_KEY, HALF);
    assert 1 !in ReachAll(nodes, es, 1);
    IndexValid(nodes, 1, es, 2, 0, MAX_KEY, HALF, true);
  }

  /** All its keys are even. */
  lemma EvenKeys(nodes: Nodes, p: Pair)
    requires TwoLevels(nodes) && p in Holds(nodes, 1, 2)
    ensures p.key % 2 == 0
  {
    hide *;
    TreeValid(nodes);
    var c := HeldByKid(nodes, RootPairs(), 1, p);
    RootBounds(c);
    KidOfRoot(nodes, c);
    var l := HeldByKid(nodes, KidPairs(c), 0, p);
    LeafOfKid(nodes, c, l);
    EvenPair(c * FANOUT + l, p);
  }

  lemma EvenPair(t: nat, p: Pair)
    requires p in Pairs(LeafPairs(t))
    ensures p.key % 2 == 0
  {
    var es := LeafPairs(t);
    assert p in es;
    var j :| 0 <= j < |es| && es[j] == p;
  }

  /** The first key below the last child of the root. */
  const LOST: nat := 2 * (LAST * FANOUT * FANOUT + 1)

  lemma LostIsHeld(nodes: Nodes)
    requires TwoLevels(nodes)
    ensures Pair(LOST, 0) in Holds(nodes, 1, 2)
  {
    hide TwoLevels, Holds, HoldsAll, Sub, Reach, Pairs, LeafPairs, KidPairs, RootPairs, Low, High, KidLow, KidHigh;
    TreeValid(nodes);
    RootBounds(LAST);
    KidOfRoot(nodes, LAST);
    LeafOfKid(nodes, LAST, 0);
    FirstPair(LAST * FANOUT);
    HeldByAll(nodes, KidPairs(LAST), 0, 0, Pair(LOST, 0));
    HeldByAll(nodes, RootPairs(), 1, LAST, Pair(LOST, 0));
  }

  lemma FirstPair(t: nat)
    ensures Pair(2 * (t * FANOUT + 1), 0) in Pairs(LeafPairs(t))
  {
    assert LeafPairs(t)[0] in LeafPairs(t);
  }

  lemma RouteAt(es: seq<Pair>, key: nat, j: nat)
    requires j < |es| && Ascending(es) && (j > 0 ==> es[j - 1].key < key) && (j < |es| - 1 ==> key <= es[j].key)
    ensures Route(es, key) == j
  {
    var s := es[..|es| - 1];
    assert forall i :: 0 <= i < |s| ==> s[i] == es[i];
    RankIs(s, key, j);
  }

  lemma StepTo(nodes: Nodes, at: Spot, key: nat, es: seq<Pair>, j: nat)
    requires at.off in nodes && Entries(nodes[at.off]) == es && j < |es| && Route(es, key) == j
    ensures Below(nodes, at, key).off == es[j].item
  {
  }

  /** Where the paths of key 1 and of the largest key lead. */
  lemma TwoPaths(nodes: Nodes)
    requires TwoLevels(nodes)
    ensures var top := Spot(1, 0, MAX_KEY);
      && Down(nodes, top, 1, 0).off == 1 && Down(nodes, top, 1, 1).off == 2 && Down(nodes, top, 1, 2).off == FIRST_LEAF
      && Down(nodes, top, MAX_KEY, 1).off == LAST + 2
  {
    var top, es := Spot(1, 0, MAX_KEY), RootPairs();
    assert IsKid(nodes, 0);
    hide TwoLevels, Within, Entries, IndexNode, Route, Below;
    IndexNodeIs(true, es);
    IndexNodeIs(false, KidPairs(0));
    RootWithin();
    KidWithin(0);
    WithinIsAscending(es, 0, MAX_KEY);
    WithinIsAscending(KidPairs(0), KidLow(0), KidHigh(0));
    RouteAt(es, 1, 0);
    RouteAt(KidPairs(0), 1, 0);
    RouteAt(es, MAX_KEY, LAST);
    RootIs(nodes);
    StepTo(nodes, top, 1, es, 0);
    StepTo(nodes, Below(nodes, top, 1), 1, KidPairs(0), 0);
    StepTo(nodes, top, MAX_KEY, es, LAST);
    DownMore(nodes, top, 1, 0);
    DownMore(nodes, top, 1, 1);
    DownMore(nodes, top, MAX_KEY, 0);
  }

  lemma RootIs(nodes: Nodes)
    requires TwoLevels(nodes)
    ensures 1 in nodes && nodes[1] == IndexNode(true, RootPairs())
  {
  }

  lemma PathsFull(nodes: Nodes)
    requires TwoLevels(nodes)
    ensures PathFull(nodes, Spot(1, 0, MAX_KEY), 1, 0, 2)
  {
    var top := Spot(1, 0, MAX_KEY);
    assert IsKid(nodes, 0) && IsLeaf(nodes, 0);
    hide TwoLevels, IndexNode, Down;
    RootIs(nodes);
    TwoPaths(nodes);
    IndexNodeIs(true, RootPairs());
    IndexNodeIs(false, KidPairs(0));
    assert FullAt(nodes, top, 1, 0) && FullAt(nodes, top, 1, 1) && FullAt(nodes, top, 1, 2);
  }

  lemma LastKidAway(nodes: Nodes)
    requires TwoLevels(nodes)
    ensures OffMiddle(nodes, Spot(1, 0, MAX_KEY), 1, 2, LAST + 2) && LOST > Middle(nodes, 1)
  {
    var top := Spot(1, 0, MAX_KEY);
    assert IsKid(nodes, LAST);
    hide TwoLevels, IndexNode, Down, Entries;
    RootIs(nodes);
    TwoPaths(nodes);
    IndexNodeIs(true, RootPairs());
    IndexNodeIs(false, KidPairs(LAST));
    forall i: nat | i <= 2 ensures Down(nodes, top, 1, i).off != LAST + 2 {
      assert i == 0 || i == 1 || i == 2;
    }
  }

  lemma OddIsAbsent(nodes: Nodes, key: nat)
    requires TwoLevels(nodes) && key % 2 == 1
    ensures key !in MapOf(Holds(nodes, 1, 2))
  {
    hide TwoLevels, Holds, MapOf, Sub;
    TreeValid(nodes);
    HoldsUnique(nodes, 1, 2, 0, MAX_KEY, HALF, true);
    forall p | p in Holds(nodes, 1, 2) ensures p.key % 2 == 0 {
      EvenKeys(nodes, p);
    }
    MapOfIs(Holds(nodes, 1, 2), key);
  }

  /** A master over this tree, with nothing on the stack. */
  ghost predicate OverTree(m: Master)
    reads m
  {
    && TwoLevels(m.nodes) && m.root == 1 && m.height == 2 && m.min == HALF && m.stack == []
    && m.nextFree >= 1 && (forall x :: x in m.nodes ==> x < m.nextFree)
    && Linked(m.next, m.prev, Leaves(m.nodes, 1, 2)) && m.keyCount == |Holds(m.nodes, 1, 2)|
  }

  lemma TreeReady(m: Master)
    requires OverTree(m)
    ensures m.Valid() && m.SplitsRoot(1) && MAX_KEY !in m.Contents() && LOST in m.Contents() && m.Contents()[LOST] == 0
    ensures OffMiddle(m.nodes, m.Top(), 1, 2, LeafParent(m, MAX_KEY)) && LOST > m.MiddleKey()
  {
    hide TwoLevels, Sub, Linked, Leaves, Holds, PathFull, MapOf, OffMiddle, Middle, Down;
    var s := Holds(m.nodes, 1, 2);
    TreeValid(m.nodes);
    PathsFull(m.nodes);
    OddIsAbsent(m.nodes, 1);
    OddIsAbsent(m.nodes, MAX_KEY);
    LastKidAway(m.nodes);
    TwoPaths(m.nodes);
    LostIsHeld(m.nodes);
    HoldsUnique(m.nodes, 1, 2, 0, MAX_KEY, HALF, true);
    MapOfIs(s, LOST);
  }

  /** A failed update of the largest key, and the insertion of key 1: the key `LOST` was in the tree, and is not
      found any more. */
  method LosesKeys(m: Master)
    requires OverTree(m)
    modifies m
    ensures LOST in old(m.Contents()) && forall item :: !Finds(m.nodes, m.root, LOST, item)
  {
    hide OverTree, Finds, OffMiddle;
    hide m.Contents, m.Sound, m.SplitsRoot, m.MiddleKey;
    TreeReady(m);
    HeightIs(m);
    UpdateThenInsert(m, MAX_KEY, 1, 0);
  }

  lemma HeightIs(m: Master)
    requires OverTree(m)
    ensures m.height == 2
  {
  }
}
