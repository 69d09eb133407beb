/** The directory B+tree (nvfuse_bp_tree.c) as a class over its node blocks. */
module BpTree {
  import opened BpPairs
  import opened BpShape
  import opened BpUpdate
  import opened BpSplit
  import opened BpLeaf
  import opened BpFacts
  import opened BpSeen
  import opened BpChain

  const MAX_STACK: nat := 128

  lemma {:induction false} RankBelow(es: seq<Pair>, key: nat)
    requires |es| >= 2 && Ascending(es)
    ensures key > es[|es| - 2].key ==> Route(es, key) == |es| - 1
    ensures key <= es[|es| - 2].key ==> Route(es, key) == Rank(es, key) < |es|
  {
    var s := es[..|es| - 1];
    assert forall i :: 0 <= i < |s| ==> s[i] == es[i];
    RankSplits(s, key);
    RankSplits(es, key);
    if key <= es[|es| - 2].key {
      RankIs(s, key, Rank(es, key));
    }
  }

  /** The stack holds the first steps of the path of `key` on top of `base`. */
  ghost predicate OnStack(nodes: Nodes, top: Spot, key: nat, base: seq<nat>, stack: seq<nat>) {
    base <= stack && forall i :: 0 <= i < |stack| - |base| ==> stack[|base| + i] == Down(nodes, top, key, i).off
  }

  lemma EmptyStack(nodes: Nodes, root: nat, h: nat)
    ensures StackOk(nodes, root, h, [])
  {
  }

  lemma NothingPushed(nodes: Nodes, top: Spot, key: nat, base: seq<nat>)
    ensures OnStack(nodes, top, key, base, base)
  {
  }

  lemma PushPath(nodes: Nodes, top: Spot, key: nat, base: seq<nat>, stack: seq<nat>)
    requires OnStack(nodes, top, key, base, stack)
    ensures OnStack(nodes, top, key, base, stack + [Down(nodes, top, key, |stack| - |base|).off])
  {
  }

  lemma PopPath(nodes: Nodes, top: Spot, key: nat, base: seq<nat>, stack: seq<nat>, off: nat)
    requires OnStack(nodes, top, key, base, stack + [off]) && |stack| >= |base|
    ensures OnStack(nodes, top, key, base, stack) && off == Down(nodes, top, key, |stack| - |base|).off
  {
    var was := stack + [off];
    assert was[|base| + (|stack| - |base|)] == off;
    assert stack == was[..|stack|] && base <= stack;
  }

  ghost predicate IsIndex(n: Node) {
    !n.leaf && |n.pairs| == FANOUT && n.num < FANOUT
  }

  ghost predicate AllIndex(nodes: Nodes, stack: seq<nat>) {
    forall i :: 0 <= i < |stack| ==> stack[i] in nodes && IsIndex(nodes[stack[i]])
  }

  /** A stack that failed updates and removals have left: index nodes of the tree, the root at the bottom. */
  ghost predicate StackOk(nodes: Nodes, root: nat, h: nat, stack: seq<nat>) {
    && AllIndex(nodes, stack) && (stack != [] ==> h > 0 && stack[0] == root)
    && forall i :: 0 <= i < |stack| ==> stack[i] in Reach(nodes, root, h)
  }

  lemma PathOnStack(nodes: Nodes, top: Spot, h: nat, min: nat, key: nat, base: seq<nat>, stack: seq<nat>)
    requires SubAt(nodes, top, h, min, true) && top.lo < key <= top.hi && StackOk(nodes, top.off, h, base)
    requires OnStack(nodes, top, key, base, stack) && |stack| == |base| + h
    ensures StackOk(nodes, top.off, h, stack)
  {
    forall i | 0 <= i < |stack| ensures stack[i] in nodes && IsIndex(nodes[stack[i]]) && stack[i] in Reach(nodes, top.off, h) {
      if i < |base| {
        assert stack[i] == base[i];
      } else {
        assert stack[|base| + (i - |base|)] == Down(nodes, top, key, i - |base|).off;
        hide SubAt, Sub, Standing, Down, Reach;
        DownReached(nodes, top, h, min, true, key, i - |base|);
        StepFacts(nodes, top, h, min, key, i - |base|);
        StandingNode(nodes, top, h, min, key, i - |base|);
      }
    }
    if base == [] && stack != [] {
      assert stack[|base| + 0] == Down(nodes, top, key, 0).off;
    }
  }

  // -------------------------------------------------------- when the root splits

  /** The nodes from `d` to `h` steps down the path of `key` are full. */
  ghost predicate PathFull(nodes: Nodes, top: Spot, key: nat, d: int, h: int) {
    forall i :: d <= i <= h ==> FullAt(nodes, top, key, i)
  }

  ghost predicate FullAt(nodes: Nodes, top: Spot, key: nat, i: int) {
    i >= 0 && var off := Down(nodes, top, key, i).off; off in nodes && Width(nodes[off]) == FANOUT
  }

  lemma PathFullMore(nodes: Nodes, top: Spot, key: nat, d: nat, h: nat)
    requires PathFull(nodes, top, key, d + 1, h) && d <= h
    ensures PathFull(nodes, top, key, d, h) <==> FullAt(nodes, top, key, d)
    ensures !FullAt(nodes, top, key, d) ==> !PathFull(nodes, top, key, 0, h)
  {
    hide FullAt;
  }

  class Master {
    var nodes: Nodes          // node blocks, by offset
    var next: Links           // i_next_node
    var prev: Links           // i_prev_node
    var root: nat             // m_root
    var stack: seq<nat>       // m_stack, m_sp
    var keyCount: int         // m_key_count
    var nextFree: nat         // the offset of the next new node
    ghost var height: nat
    ghost var min: nat        // fewest pairs in a leaf other than the root

    ghost function Top(): Spot
      reads this
    {
      Spot(root, 0, MAX_KEY)
    }

    ghost predicate Sound()
      reads this
    {
      && SubAt(nodes, Top(), height, min, true) && 1 <= min <= HALF
      && nextFree >= 1 && (forall x :: x in nodes ==> x < nextFree)
      && Linked(next, prev, Leaves(nodes, root, height))
      && keyCount == |Holds(nodes, root, height)|
    }

    ghost predicate Valid()
      reads this
    {
      Sound() && stack == []
    }

    /** `Valid`, but for what failed updates and removals have left on the stack. */
    ghost predicate Ready()
      reads this
    {
      Sound() && StackOk(nodes, root, height, stack) && (stack == [] || |stack| + height < MAX_STACK)
    }

    /** Inserting `key` splits the root. */
    ghost predicate SplitsRoot(key: nat)
      reads this
    {
      height >= 1 && key !in Contents() && PathFull(nodes, Top(), key, 0, height)
    }

    /** The key in the middle of the root. */
    ghost function MiddleKey(): nat
      reads this
    {
      Middle(nodes, root)
    }

    /** The last offset on the stack is that of a node that does not belong to the middle of the root. */
    ghost predicate StrayOnStack(key: nat)
      reads this
    {
      stack != [] && OffMiddle(nodes, Top(), key, height, stack[|stack| - 1])
    }

    /** The map stored in the tree. */
    ghost function Contents(): map<nat, nat>
      reads this
    {
      MapOf(Holds(nodes, root, height))
    }

    /** bp_init_root: an empty leaf. */
    constructor ()
      ensures Valid() && Contents() == map[] && min == HALF
    {
      nodes, next, prev := map[1 := LeafNode(true, [])], map[], map[];
      root, stack, keyCount, nextFree := 1, [], 0, 2;
      height, min := 0, HALF;
      new;
      LeafValid(nodes, 1, true, [], 0, MAX_KEY, HALF);
    }

    /** bp_next_node. */
    method NextNode(off: nat, key: nat) returns (kid: nat)
      requires off in nodes && Shaped(nodes[off]) && !nodes[off].leaf
      requires |Entries(nodes[off])| >= 2 && Ascending(Entries(nodes[off]))
      ensures kid == Entries(nodes[off])[Route(Entries(nodes[off]), key)].item
    {
      var n := nodes[off];
      ghost var es := Entries(n);
      assert es == n.pairs[..n.num + 1];
      assert forall i :: 0 <= i < |es| ==> es[i] == n.pairs[i];
      RankBelow(es, key);
      hide Ascending;
      if key > n.pairs[n.num - 1].key {
        kid := n.pairs[n.num].item;
      } else {
        var j := BinSearch(key, n.pairs, n.num, true);
        kid := n.pairs[j].item;
      }
    }

    /** stack_push: the height bound keeps the stack from overflowing. */
    method Push(off: nat)
      requires |stack| + 1 < MAX_STACK
      modifies this`stack
      ensures stack == old(stack) + [off]
    {
      stack := stack + [off];
    }

    /** stack_pop. */
    method Pop() returns (off: nat)
      requires stack != []
      modifies this`stack
      ensures old(stack) == stack + [off]
    {
      off := stack[|stack| - 1];
      stack := stack[..|stack| - 1];
    }

    /** traverse_empty and the descent of search_data_node: down to the leaf for `key`; the
        index nodes passed go on the stack. */
    method Traverse(key: nat) returns (leaf: nat)
      requires Ready() && 0 < key <= MAX_KEY
      modifies this`stack
      ensures Sound() && |stack| == |old(stack)| + height && OnStack(nodes, Top(), key, old(stack), stack)
      ensures leaf == Down(nodes, Top(), key, height).off
      ensures Standing(nodes, Top(), height, min, key, height)
    {
      hide Sub, Below, SubAt, Holds, Linked, Leaves, Standing, StackOk, OnStack, Down, Entries, Shaped, Route, Ascending;
      SubAtIs(nodes, Top(), height, min, true);
      Shallow(nodes, root, height, min);
      leaf := root;
      ghost var top, base, d := Top(), stack, 0;
      NothingPushed(nodes, top, key, base);
      RootOnPath(nodes, top, key);
      StepFacts(nodes, top, height, min, key, 0);
      StandingNode(nodes, top, height, min, key, 0);
      while !nodes[leaf].leaf
        invariant d <= height && |stack| == |base| + d && OnStack(nodes, top, key, base, stack)
        invariant Standing(nodes, top, height, min, key, d)
        invariant leaf == Down(nodes, top, key, d).off && leaf in nodes && nodes[leaf].leaf == (d == height)
        decreases height - d
      {
        StandingNode(nodes, top, height, min, key, d);
        PushPath(nodes, top, key, base, stack);
        DownMore(nodes, top, key, d);
        Push(leaf);
        d := d + 1;
        leaf := NextNode(leaf, key);
        StepFacts(nodes, top, height, min, key, d);
        StandingNode(nodes, top, height, min, key, d);
      }
    }

    /** search_data_node: the leaf for `key` and the position of `key` in it. */
    method Search(key: nat) returns (leaf: nat, index: int)
      requires Ready() && 0 < key <= MAX_KEY
      modifies this`stack
      ensures Sound() && |stack| == |old(stack)| + height && OnStack(nodes, Top(), key, old(stack), stack)
      ensures StackOk(nodes, root, height, stack)
      ensures leaf == Down(nodes, Top(), key, height).off && Standing(nodes, Top(), height, min, key, height)
      ensures leaf in nodes && LookedUp(Entries(nodes[leaf]), key, index) && Shaped(nodes[leaf]) && nodes[leaf].leaf
      ensures nodes[leaf].root == (height == 0)
      ensures Contents() == old(Contents()) && (index >= 0) == (key in Contents())
      ensures index >= 0 ==> Contents()[key] == Entries(nodes[leaf])[index].item
    {
      hide SubAt, Sub, Linked, Leaves, MapOf, Standing, OnStack, Holds, StackOk;
      ghost var base := stack;
      leaf := Traverse(key);
      PathOnStack(nodes, Top(), height, min, key, base, stack);
      StandingNode(nodes, Top(), height, min, key, height);
      var n := nodes[leaf];
      index := BinSearch(key, n.pairs, n.num - 1, false);
      FoundIs(nodes, Top(), height, min, key, index);
    }

    /** bp_find_key: the stack is empty afterwards. */
    method FindKey(key: nat) returns (index: int, value: nat)
      requires Ready() && 0 < key <= MAX_KEY
      modifies this`stack
      ensures Valid() && Contents() == old(Contents())
      ensures if key in Contents() then index >= 0 && value == Contents()[key] else index < 0 && value == 0
    {
      hide SubAt, Sub, Linked, Leaves, MapOf, Standing, OnStack, Holds, StackOk;
      var leaf;
      leaf, index := Search(key);
      value := if index >= 0 then nodes[leaf].pairs[index].item else 0;
      stack := [];
    }

    /** Writes the leaf on the path of `key` so that it holds `es`. */
    method WriteLeaf(leaf: nat, n: Node, ghost key: nat, ghost es: seq<Pair>, ghost add: set<Pair>)
      requires SubAt(nodes, Top(), height, min, true) && leaf == Down(nodes, Top(), key, height).off
      requires Standing(nodes, Top(), height, min, key, height) && |es| <= FANOUT && n == LeafNode(height == 0, es)
      requires NewLeaf(nodes, Top(), height, min, key, es, add) && 0 < key <= MAX_KEY
      modifies this`nodes
      ensures nodes == old(nodes)[leaf := n]
      ensures SubAt(nodes, Top(), height, min, true) && Leaves(nodes, root, height) == Leaves(old(nodes), root, height)
      ensures Holds(nodes, root, height) == Without(Holds(old(nodes), root, height), key) + add
      ensures nodes.Keys == old(nodes).Keys
    {
      LeafRewritten(nodes, Top(), height, min, key, es, add);
      nodes := nodes[leaf := n];
    }

    /** bp_update_key_tree. A missing key leaves the tree alone, but its path stays on the
        stack, which only the other outcome flushes. */
    method UpdateKey(key: nat, value: nat) returns (found: bool)
      requires Ready() && 0 < key <= MAX_KEY
      modifies this
      ensures Sound() && StackOk(nodes, root, height, stack) && found == (key in old(Contents()))
      ensures Valid() <==> key in old(Contents()) || (height == 0 && old(stack) == [])
      ensures found ==> Contents() == old(Contents())[key := value] && min == old(min)
      ensures !found ==> Contents() == old(Contents()) && nodes == old(nodes) && root == old(root) && height == old(height)
      ensures !found ==> |stack| == |old(stack)| + height && OnStack(nodes, Top(), key, old(stack), stack)
    {
      hide StackOk, SubAt, Sub, Linked, Leaves, MapOf, Standing, OnStack, Holds, Down, Entries, Pairs, Without, Within, LeafWidth, Unique;
      SpotUnique(nodes, Top(), height, min, true);
      var leaf, index := Search(key);
      found := index >= 0;
      if !found {
        return;
      }
      var n := nodes[leaf];
      ghost var es, s := Entries(n), Holds(nodes, root, height);
      ReplaceReady(nodes, Top(), height, min, key, index, value);
      ReplacedNode(n, index, Pair(key, value));
      if n.pairs[index].key == key {
        n := n.(pairs := n.pairs[index := Pair(key, value)]);
      }
      WriteLeaf(leaf, n, key, es[index := Pair(key, value)], {Pair(key, value)});
      stack := [];
      EmptyStack(nodes, root, height);
      PutCounts(s, key, value);
    }

    /** bp_remove_key, for a leaf that does not become empty or is the root. A missing key
        leaves the stack as a failed update does. */
    method RemoveKey(key: nat) returns (res: int)
      requires Ready() && 0 < key <= MAX_KEY
      requires key in Contents() ==> height == 0 || LeafWidth(nodes, Top(), key, height) >= 2
      modifies this
      ensures Sound() && StackOk(nodes, root, height, stack) && res == if key in old(Contents()) then 0 else -1
      ensures Valid() <==> key in old(Contents()) || (height == 0 && old(stack) == [])
      ensures res == 0 ==> Contents() == old(Contents()) - {key}
      ensures res != 0 ==> Contents() == old(Contents()) && nodes == old(nodes) && root == old(root) && height == old(height)
      ensures res != 0 ==> |stack| == |old(stack)| + height && OnStack(nodes, Top(), key, old(stack), stack)
    {
      hide StackOk, SubAt, Sub, Linked, Leaves, MapOf, Standing, OnStack, Holds, Down, Entries, Pairs, Without, Within, LeafWidth, Unique,
        Shaped, LeafNode, LookedUp, NewLeaf;
      SpotUnique(nodes, Top(), height, min, true);
      var leaf, index := Search(key);
      if index < 0 {
        return -1;
      }
      Loosen(nodes, Top(), height, min, key);
      min := 1;
      var n := nodes[leaf];
      ghost var es, s := Entries(n), Holds(nodes, root, height);
      RemoveReady(nodes, Top(), height, min, key, index);
      n := DropPair(n, index);
      WriteLeaf(leaf, n, key, es[..index] + es[index + 1..], {});
      stack := [];
      EmptyStack(nodes, root, height);
      DropCounts(s, key);
      keyCount := keyCount - 1;
      res := 0;
    }

    /** The shifting loop of bp_remove_key. */
    method DropPair(n: Node, index: nat) returns (n': Node)
      requires Shaped(n) && n.leaf && index < |Entries(n)|
      ensures var es := Entries(n)[..index] + Entries(n)[index + 1..]; |es| <= FANOUT && n' == LeafNode(n.root, es)
    {
      var pairs := n.pairs;
      for i := index to n.num - 1
        invariant |pairs| == FANOUT && (forall k :: 0 <= k < index || i <= k < FANOUT ==> pairs[k] == n.pairs[k])
        invariant forall k :: index < k <= i ==> pairs[k - 1] == n.pairs[k]
      {
        pairs := pairs[i := pairs[i + 1]];
      }
      pairs := pairs[n.num - 1 := NULL];
      n' := n.(pairs := pairs, num := n.num - 1);
      DroppedIs(n.pairs, pairs, index, n.num);
    }

    // ---------------------------------------------------------------- insertion

    /** A new offset: bp_alloc_bitmap is not part of this model, nodes are numbered as they
        are made. */
    method NewOffset() returns (r: nat)
      requires nextFree >= 1 && forall x :: x in nodes ==> x < nextFree
      modifies this`nextFree
      ensures r != 0 && r !in nodes && r < nextFree && forall x :: x in nodes ==> x < nextFree
    {
      r := nextFree;
      nextFree := nextFree + 1;
    }

    /** bp_merge_key: a leaf with room. */
    method InsertInLeaf(leaf: nat, key: nat, value: nat)
      requires SubAt(nodes, Top(), height, min, true) && leaf == Down(nodes, Top(), key, height).off && 0 < key <= MAX_KEY
      requires Standing(nodes, Top(), height, min, key, height) && leaf in nodes && !HasKey(Entries(nodes[leaf]), key)
      requires nodes[leaf].num < FANOUT
      modifies this`nodes
      ensures SubAt(nodes, Top(), height, min, true) && Leaves(nodes, root, height) == Leaves(old(nodes), root, height)
      ensures Holds(nodes, root, height) == Without(Holds(old(nodes), root, height), key) + {Pair(key, value)}
      ensures nodes.Keys == old(nodes).Keys
    {
      var n := nodes[leaf];
      ghost var es := Entries(n);
      StandingNode(nodes, Top(), height, min, key, height);
      InsertReady(nodes, Top(), height, min, key, value);
      FreeSlot(n);
      hide Sub, SubAt, Standing, Holds, Leaves, Down, Inserted, HasKey, NewLeaf, Ascending;
      var pairs := MergeKey(n.pairs, Pair(key, value), n.num + 1);
      InsertedNode(n, es, Pair(key, value), pairs);
      n := n.(pairs := pairs, num := n.num + 1);
      WriteLeaf(leaf, n, key, Inserted(es, Pair(key, value)), {Pair(key, value)});
    }

    /** bp_split_index_node: the new pairs `es` go into node `ip`, or half of them into a new
        sibling. `stale`: the node is not on the path of the change. */
    method SplitIndexNode(ip: nat, es: seq<Pair>, ghost nodes0: Nodes, ghost c: Change, ghost d: nat, ghost stale: bool)
        returns (sibling: nat, median: Pair)
      requires stale || (d < height && ReadyFor(nodes0, nodes, Top(), height, min, c, d, es) && ip == Down(nodes0, Top(), c.key, d).off)
      requires ip in nodes && IsIndex(nodes[ip]) && |es| == Width(nodes[ip]) + 1 && (stale || Roomy(nodes[ip], es, d == 0))
      requires nextFree >= 1 && forall x :: x in nodes ==> x < nextFree
      modifies this`nodes, this`nextFree
      ensures nextFree >= 1 && forall x :: x in nodes ==> x < nextFree
      ensures Rewritten(old(nodes), nodes, ip, sibling)
      ensures sibling == 0 ==> nodes == old(nodes)[ip := nodes[ip]] && Entries(nodes[ip]) == es
      ensures sibling != 0 ==> |es| == FANOUT + 1 && median == Pair(es[HALF - 1].key, ip) && Entries(nodes[ip]) == es[..HALF]
      ensures !stale && sibling == 0 ==> Settled(nodes0, nodes, Top(), height, min, c, d)
      ensures !stale && sibling != 0 ==> SplitBelow(nodes0, nodes, Top(), height, min, c, d, median, sibling)
    {
      hide ReadyFor, Settled, SplitBelow, Down, Roomy, Padded, IndexNode, Shaped;
      var n := nodes[ip];
      median := NULL;
      if |es| - 1 < FANOUT {
        if !stale {
          RoomyBounds(n, es, d == 0);
          RoomyNode(n, es, d == 0);
          FitsIn(nodes0, nodes, Top(), height, min, c, d, es);
        }
        nodes := nodes[ip := n.(num := |es| - 1, pairs := es + n.pairs[|es|..])];
        assert (es + n.pairs[|es|..])[..|es|] == es;
        sibling := 0;
      } else {
        sibling := NewOffset();
        var left := CopyPairs(es, 0, |es| / 2);
        var right := CopyPairs(es, |es| / 2, |es| / 2);
        if !stale {
          SplitsUp(nodes0, nodes, Top(), height, min, c, d, es, sibling);
        }
        HalfNodes(es);
        median := Pair(es[|es| / 2 - 1].key, ip);
        nodes := nodes[ip := Node(false, false, |es| / 2 - 1, left)][sibling := Node(false, false, |es| / 2 - 1, right)];
        LastOfHalf(es);
      }
    }

    /** The list part of bp_split_data_node: leaf `r` is linked in behind leaf `dp`. */
    method LinkLeaf(dp: nat, r: nat)
      requires r != dp
      modifies this`next, this`prev
      ensures next == NextAfter(old(next), dp, r) && prev == PrevAfter(old(next), old(prev), dp, r)
    {
      next := next[r := Get(next, dp)];
      prev := prev[r := dp];
      if Get(next, dp) != 0 {
        prev := prev[Get(next, dp) := r];
      }
      next := next[dp := r];
    }

    /** The leaf part of bp_split_data_node: the pairs of leaf `dp` and the new one are
        shared out to `dp` and a new leaf. */
    method SplitLeaf(dp: nat, key: nat, value: nat) returns (r: nat, x: Pair, y: Pair)
      requires SubAt(nodes, Top(), height, min, true) && dp == Down(nodes, Top(), key, height).off && 0 < key <= MAX_KEY
      requires Standing(nodes, Top(), height, min, key, height) && dp in nodes && !HasKey(Entries(nodes[dp]), key)
      requires nodes[dp].num == FANOUT && height >= 1 && min <= HALF && nextFree >= 1 && forall z :: z in nodes ==> z < nextFree
      modifies this`nodes, this`nextFree
      ensures r != 0 && r !in old(nodes) && nextFree >= 1 && forall z :: z in nodes ==> z < nextFree
      ensures forall z :: z in old(nodes) && z != dp ==> z in nodes && nodes[z] == old(nodes)[z]
      ensures x.item == dp && y.item == r
      ensures LeafSplitDone(old(nodes), nodes, Top(), height, min, Change(key, {Pair(key, value)}, dp, [dp, r]), x, y)
    {
      var n := nodes[dp];
      ghost var es := Entries(n);
      ghost var p := Pair(key, value);
      hide Sub, SubAt, Standing, Holds, Leaves, Down, Inserted, HasKey, NewLeaf, Ascending, LeafSplitDone, Padded, Shaped, Entries, LeafNode;
      StandingNode(nodes, Top(), height, min, key, height);
      FullLeaf(n);
      var all := MergeKey(n.pairs[..n.num] + [NULL], Pair(key, value), n.num + 1);
      assert all == Inserted(es, p);
      r := NewOffset();
      var offset := n.num / 2;
      var left := CopyPairs(all, 0, n.num - offset);
      var right := CopyPairs(all, n.num - offset, offset + 1);
      LeafHalves(all);
      x, y := Pair(left[n.num - offset - 1].key, dp), Pair(right[offset].key, r);
      LeafSplits(nodes, Top(), height, min, key, value, r);
      nodes := nodes[dp := Node(false, true, n.num - offset, left)][r := Node(false, true, offset + 1, right)];
    }

    /** The end of bp_split_data_node: the pairs of the parent, with the two leaves. */
    method MergeLeaves(ip: nat, x: Pair, y: Pair, ghost nodes0: Nodes, ghost c: Change) returns (es: seq<Pair>)
      requires height >= 1 && SubAt(nodes0, Top(), height, min, true) && 0 < c.key <= MAX_KEY
      requires LeafSplitDone(nodes0, nodes, Top(), height, min, c, x, y) && ip == Down(nodes0, Top(), c.key, height - 1).off
      ensures ReadyFor(nodes0, nodes, Top(), height, min, c, height - 1, es) && ip in nodes && Roomy(nodes[ip], es, height == 1)
      ensures ip in nodes0 && nodes[ip] == nodes0[ip] && NotLater(es, Entries(nodes0[ip]))
    {
      hide Sub, SubAt, Down, SplitBelow, ReadyFor, Route, Padded, Ascending, Between, Others, NotLater;
      ghost var a, e, b := ParentTakes(nodes0, nodes, Top(), height, min, c, height - 1, x, y);
      var n := nodes[ip];
      ParentArray(n, a, e, b);
      var arr, count := ClearAndCollect(n.pairs, n.num + 1, x.item, |a|);
      var merged := MergeTwo(arr, x, y, count, a, b, []);
      es := merged[..count + 2];
      PaddedPrefix(a + [x, y] + b, merged);
      KeysNotLater(a, e, b, x, y);
    }

    /** The part of bp_split_tree that puts a split index node into the pairs of node `ip`: its
        parent, unless `stale`. */
    method MergeSplit(ip: nat, median: Pair, newChild: nat, ghost nodes0: Nodes, ghost c: Change, ghost d: nat, ghost stale: bool)
        returns (es: seq<Pair>)
      requires stale || (d + 1 < height && SubAt(nodes0, Top(), height, min, true) && 0 < c.key <= MAX_KEY)
      requires stale || (SplitBelow(nodes0, nodes, Top(), height, min, c, d + 1, median, newChild) && ip == Down(nodes0, Top(), c.key, d).off)
      requires stale ==> ip in nodes && IsIndex(nodes[ip])
      requires newChild in nodes && IsIndex(nodes[newChild])
      ensures ip in nodes && IsIndex(nodes[ip]) && |es| == Width(nodes[ip]) + 1
      ensures !stale ==> ReadyFor(nodes0, nodes, Top(), height, min, c, d, es) && Roomy(nodes[ip], es, d == 0)
      ensures !stale ==> ip in nodes0 && nodes[ip] == nodes0[ip] && NotLater(es, Entries(nodes0[ip])) && NotEarlier(es, Entries(nodes0[ip]))
      ensures stale && LiesBefore(nodes[ip], nodes[newChild], median) ==>
        es == Entries(nodes[ip]) + [Pair(LastKey(nodes[newChild]), newChild)]
    {
      hide Sub, SubAt, Down, SplitBelow, ReadyFor, Route, Padded, Ascending, Between, Others, Shaped, Entries, Roomy, Mergeable, OnlyItem,
        NotLater, NotEarlier, LiesBefore, AllBefore;
      ghost var a: seq<Pair>, e, b: seq<Pair> := [], NULL, [];
      if !stale {
        a, e, b := ChildPosition(nodes0, nodes, Top(), height, min, c, d, median, newChild);
        ParentArray(nodes[ip], a, e, b);
      }
      var n := nodes[ip];
      var arr, key := CollectOthers(n.pairs, n.num + 1, median.item, |a|);
      var m := nodes[newChild];
      var y := Pair(if key > m.pairs[m.num].key then key else m.pairs[m.num].key, newChild);
      if !stale {
        SplitMerges(nodes0, nodes, Top(), height, min, c, d, median, newChild, a, e, b, key, y);
      } else if LiesBefore(n, m, median) {
        BeforeArray(n, m, median, newChild);
      }
      var merged := MergeTwo(arr, median, y, n.num, a, b, Entries(n));
      if !stale {
        MergedAscends(a, median, y, b, merged);
        PaddedPrefix(a + [median, y] + b, merged);
      } else if LiesBefore(n, m, median) {
        BeforeAscends(Entries(n), median, y, merged);
      }
      merged := BubbleSort(merged, n.num + 2);
      es := merged[..n.num + 2];
    }

    /** The end of bp_split_tree: the root has been split, and gets a parent. */
    method SplitRoot(median: Pair, newChild: nat, ghost nodes0: Nodes, ghost c: Change)
      requires SubAt(nodes0, Top(), height, min, true) && SplitBelow(nodes0, nodes, Top(), height, min, c, 0, median, newChild)
      requires height >= 1 && nextFree >= 1 && forall x :: x in nodes ==> x < nextFree
      modifies this`nodes, this`nextFree, this`root, this`height
      ensures nextFree >= 1 && forall x :: x in nodes ==> x < nextFree
      ensures WholeTree(nodes0, old(Top()), old(height), nodes, Top(), height, min, c)
    {
      hide SubAt, SplitBelow, WholeTree, Down;
      var r := NewOffset();
      TwoHalves(nodes0, nodes, Top(), height, min, c, median, newChild);
      var n, m := nodes[root], nodes[newChild];
      var low, high := n.pairs[n.num - 1].key, m.pairs[m.num - 1].key;
      var x, y := Pair(median.key, root), Pair(high, newChild);
      if !(low < high) {
        x, y := Pair(median.key, newChild), Pair(low, root);
      }
      RootSplits(nodes0, nodes, Top(), height, min, c, median, newChild, y.key, r);
      TwoPairs(true, x, y);
      nodes := nodes[r := Node(true, false, 1, Padded([x, y], FANOUT))];
      root, height := r, height + 1;
    }

    /** bp_split_tree: the leaf is split, and then index nodes up the stack as long as they
        overflow. A split clears the mark of the root, so that the loop goes on to what was on the
        stack before, `base`: then the change is `stray`, and no new root is made. */
    method SplitTree(dp: nat, key: nat, value: nat, ghost base: seq<nat>)
        returns (ghost r: nat, ghost stray: bool, ghost half: Nodes, ghost mid: nat, ghost upper: nat)
      requires SubAt(nodes, Top(), height, min, true) && dp == Down(nodes, Top(), key, height).off && 0 < key <= MAX_KEY
      requires Standing(nodes, Top(), height, min, key, height) && dp in nodes && !HasKey(Entries(nodes[dp]), key)
      requires nodes[dp].num == FANOUT && 1 <= min <= HALF && nextFree >= 1 && forall x :: x in nodes ==> x < nextFree
      requires height >= 1 && |stack| == |base| + height && OnStack(nodes, Top(), key, base, stack) && StackOk(nodes, root, height, base)
      modifies this`nodes, this`nextFree, this`next, this`prev, this`stack, this`root, this`height
      ensures nextFree >= 1 && forall x :: x in nodes ==> x < nextFree
      ensures r != 0 && r !in old(nodes) && next == NextAfter(old(next), dp, r) && prev == PrevAfter(old(next), old(prev), dp, r)
      ensures stray <==> base != [] && PathFull(old(nodes), old(Top()), key, 0, old(height))
      ensures !stray ==>
        WholeTree(old(nodes), old(Top()), old(height), nodes, Top(), height, min, Change(key, {Pair(key, value)}, dp, [dp, r]))
      ensures stray ==> root == old(root) && height == old(height) && root in nodes && !nodes[root].root
      ensures stray ==>
        Strayed(old(nodes), half, nodes, Top(), height, min, Change(key, {Pair(key, value)}, dp, [dp, r]), mid, upper, base[|base| - 1])
    {
      ghost var nodes0, top, h := nodes, Top(), height;
      hide SubAt, SplitBelow, WholeTree, Down, Standing, LeafSplitDone, ReadyFor, Roomy, Settled, Entries, HasKey, NextAfter, PrevAfter,
        OnStack, StackOk, PathFull, Rewritten, IsIndex, AllIndex, FullAt, KeptAside, NotLater, NotEarlier, SplitLow, SplitHigh, Strayed, LastKey;
      BaseIndex(nodes, root, h, base);
      var ip := Pop();
      PopPath(nodes, top, key, base, stack, ip);
      StandingNode(nodes, top, h, min, key, h);
      LeafIsFull(nodes, top, key, h);
      AllAside(nodes, top, key, h);
      var sibling, x, y := SplitLeaf(dp, key, value);
      BaseKept(nodes0, nodes, base, dp);
      StillAside(nodes0, nodes0, nodes, top, key, h, h);
      r := sibling;
      ghost var c := Change(key, {Pair(key, value)}, dp, [dp, r]);
      LinkLeaf(dp, sibling);
      var es := MergeLeaves(ip, x, y, nodes0, c);
      RoomyIndex(nodes[ip], es, h == 1);
      ghost var nodes1 := nodes;
      var newChild, median := SplitIndexNode(ip, es, nodes0, c, height - 1, false);
      Climbed(nodes0, nodes1, nodes, top, key, h - 1, h, base, ip, newChild);
      ClimbedLow(nodes0, nodes1, nodes, top, key, h - 1, h, ip, newChild, es, median);
      ghost var d;
      newChild, median, d, stray, half, mid, upper := Climb(newChild, median, nodes0, c, h - 1, base);
      if newChild != 0 {
        SplitRoot(median, newChild, nodes0, c);
      } else if !stray {
        SettledWhole(nodes0, nodes, top, h, min, c, d);
      }
    }

    /** The loop of bp_split_tree after its first round: index nodes are popped and split as long as
        they overflow, first those on the path of the key, then, when the root has been split, those
        of `base`. The root is split as in `half`, at the key `mid`, with the upper half `upper`. */
    method Climb(child: nat, m: Pair, ghost nodes0: Nodes, ghost c: Change, ghost d0: nat, ghost base: seq<nat>)
        returns (newChild: nat, median: Pair, ghost d: nat, ghost stray: bool, ghost half: Nodes, ghost mid: nat, ghost upper: nat)
      requires SubAt(nodes0, Top(), height, min, true) && 0 < c.key <= MAX_KEY && StackOk(nodes0, root, height, base)
      requires nextFree >= 1 && (forall z :: z in nodes ==> z < nextFree) && AllIndex(nodes, base)
      requires OnPath(nodes0, nodes, Top(), height, min, c, d0, base, stack, m, child)
      modifies this`nodes, this`nextFree, this`stack
      ensures nextFree >= 1 && (forall z :: z in nodes ==> z < nextFree) && (newChild != 0 ==> stack == [])
      ensures stray <==> base != [] && PathFull(nodes0, Top(), c.key, 0, height)
      ensures !stray ==> OnPath(nodes0, nodes, Top(), height, min, c, d, base, stack, median, newChild)
      ensures stray ==> newChild == 0 && root in nodes && !nodes[root].root
      ensures stray ==> Strayed(nodes0, half, nodes, Top(), height, min, c, mid, upper, base[|base| - 1])
    {
      hide SubAt, Down, ReadyFor, Roomy, OnStack, StackOk, PathFull, Rewritten, IsIndex, AllIndex, Settled, SplitBelow, KeptAside, NotLater,
        NotEarlier, SplitLow, SplitHigh, Strayed, Stray, LastKey, Entries, LiesBefore;
      ghost var top, h, key := Top(), height, c.key;
      newChild, median, d, stray := child, m, d0, false;
      half, mid, upper := nodes, 0, 0;
      while newChild != 0 && stack != []
        invariant nextFree >= 1 && (forall z :: z in nodes ==> z < nextFree) && AllIndex(nodes, base)
        invariant !stray ==> OnPath(nodes0, nodes, top, h, min, c, d, base, stack, median, newChild)
        invariant stray ==> OffPath(nodes, root, base, stack, newChild) && PathFull(nodes0, top, key, 0, h)
        invariant stray ==> Strayed(nodes0, half, nodes, top, h, min, c, mid, upper, base[|base| - 1])
        invariant stray && newChild != 0 ==> base[|base| - 1] in half && Width(half[base[|base| - 1]]) >= FANOUT
        decreases |stack|
      {
        ghost var first := !stray && d == 0;
        if first {
          RootOnPath(nodes0, top, key);
          PathDone(nodes0, top, key, base, stack);
          stray, half, mid, upper := true, nodes, median.key, newChild;
          StrayStarts(nodes0, half, top, h, min, c, median, upper);
          BaseTop(nodes0, root, h, base);
        }
        var ip := Pop();
        if stray {
          StaleEntry(nodes, base, stack, ip);
          StaleRoot(nodes0, root, h, base, stack, ip);
        } else {
          PopPath(nodes0, top, key, base, stack, ip);
          d := d - 1;
        }
        var es := MergeSplit(ip, median, newChild, nodes0, c, d, stray);
        ghost var nodes1 := nodes;
        newChild, median := SplitIndexNode(ip, es, nodes0, c, d, stray);
        if !stray {
          Climbed(nodes0, nodes1, nodes, top, key, d, h, base, ip, newChild);
          ClimbedLow(nodes0, nodes1, nodes, top, key, d, h, ip, newChild, es, median);
        } else {
          StaleStep(nodes1, nodes, base, ip, newChild, root);
          if first {
            FirstStray(nodes0, half, nodes, top, h, min, c, mid, upper, ip);
          } else {
            StrayOn(nodes0, half, nodes1, nodes, top, h, min, c, mid, upper, base[|base| - 1]);
          }
        }
      }
    }

    /** bp_add_root_node: a full root leaf becomes an index node over two new leaves. */
    method AddRootNode(key: nat, value: nat) returns (ghost l: nat, ghost r: nat)
      requires SubAt(nodes, Top(), 0, min, true) && height == 0 && root in nodes && 0 < key <= MAX_KEY
      requires !HasKey(Entries(nodes[root]), key) && nodes[root].num == FANOUT && min <= HALF
      requires nextFree >= 1 && forall x :: x in nodes ==> x < nextFree
      modifies this`nodes, this`nextFree, this`next, this`prev, this`height
      ensures nextFree >= 1 && (forall x :: x in nodes ==> x < nextFree) && height == 1
      ensures Linked(next, prev, [l, r])
      ensures SubAt(nodes, Top(), 1, min, true) && Leaves(nodes, root, 1) == [l, r]
      ensures Holds(nodes, root, 1) == Without(Holds(old(nodes), root, 0), key) + {Pair(key, value)}
    {
      hide SubAt, Holds, Leaves, Inserted, HasKey, Ascending, Padded, Shaped, Entries, Linked, Without, NextAfter, PrevAfter;
      RootLeaf(nodes, Top(), min);
      var n := nodes[root];
      FullLeaf(n);
      var left := NewOffset();
      var right := nextFree;
      nextFree := nextFree + 1;
      l, r := left, right;
      var all := MergeKey(n.pairs[..n.num] + [NULL], Pair(key, value), n.num + 1);
      assert all == Inserted(Entries(n), Pair(key, value));
      var offset := n.num / 2;
      var a := CopyPairs(all, 0, n.num - offset);
      var b := CopyPairs(all, n.num - offset, offset + 1);
      LeafHalves(all);
      var x, y := Pair(a[n.num - offset - 1].key, left), Pair(b[offset].key, right);
      RootLeafSplits(nodes, Top(), min, key, value, left, right);
      TwoPairs(true, x, y);
      nodes := nodes[left := Node(false, true, n.num - offset, a)][right := Node(false, true, offset + 1, b)]
        [root := Node(true, false, 1, Padded([x, y], FANOUT))];
      height := 1;
      next, prev := next[left := 0], prev[left := 0];
      PairLinked(next, prev, left, right);
      LinkLeaf(left, right);
    }

    /** bp_insert_key_tree. Offsets left on the stack do no harm as long as the root is not split. If it
        is, the tree loses the mark of its root. With a height of 1 searches still see the right map; in a
        higher tree, with an offset from outside the middle of the root on the stack, they see nothing behind
        that middle any more. */
    method InsertKey(key: nat, value: nat, update: bool) returns (res: int, cur: nat)
      requires Ready() && 0 < key <= MAX_KEY
      modifies this
      ensures stack == [] && (Valid() <==> old(stack) == [] || !old(SplitsRoot(key)))
      ensures !Valid() ==> root == old(root) && root in nodes && !nodes[root].root
      ensures key in old(Contents()) ==> cur == old(Contents())[key] && res == if update then 0 else -1
      ensures key !in old(Contents()) ==> res == 0
      ensures Valid() ==> min == old(min)
      ensures old(stack) == [] || !old(SplitsRoot(key)) || old(height) == 1 ==>
        Sees(nodes, root, if key in old(Contents()) && !update then old(Contents()) else old(Contents())[key := value])
      ensures old(stack) != [] && old(SplitsRoot(key)) && old(height) > 1 && old(StrayOnStack(key)) ==>
        forall k, item :: k > old(MiddleKey()) ==> !Finds(nodes, root, k, item)
      ensures Valid() ==> Contents() == if key in old(Contents()) && !update then old(Contents()) else old(Contents())[key := value]
    {
      hide SubAt, Sub, Linked, Leaves, MapOf, Standing, OnStack, Holds, Down, Entries, Pairs, Without, Within, LeafWidth, Unique,
        Shaped, LeafNode, NewLeaf, HasKey, WholeTree, NextAfter, PrevAfter, StackOk, PathFull, Sees, Finds, Strayed, Middle, OffMiddle;
      SpotUnique(nodes, Top(), height, min, true);
      res, cur := 0, 0;
      ghost var base := stack;
      ghost var nodes0, top, h, s := nodes, Top(), height, Holds(nodes, root, height);
      PutCounts(s, key, value);
      var leaf, index := Search(key);
      var n := nodes[leaf];
      LeafBounds(n);
      if index >= 0 {
        ReplacedNode(n, index, Pair(key, value));
        cur, res := n.pairs[index].item, -1;
        if update && n.pairs[index].key == key {
          ReplaceReady(nodes, Top(), height, min, key, index, value);
          n := n.(pairs := n.pairs[index := Pair(key, value)]);
          WriteLeaf(leaf, n, key, Entries(nodes[leaf])[index := Pair(key, value)], {Pair(key, value)});
          res := 0;
        }
        SpotSees(nodes, Top(), height, min);
        stack := [];
        return;
      }
      if n.root && n.num == FANOUT {
        RootOnPath(nodes, top, key);
        ghost var l, r := AddRootNode(key, value);
        SpotSees(nodes, Top(), height, min);
      } else if n.num == FANOUT {
        ghost var next0, prev0 := next, prev;
        ghost var r, stray, half, mid, upper := SplitTree(leaf, key, value, base);
        if stray {
          Unmarked(nodes, Top(), height, min);
          StrayInsert(nodes0, half, nodes, top, h, min, Change(key, {Pair(key, value)}, leaf, [leaf, r]), mid, upper, base);
        } else {
          ChainGrows(nodes0, top, h, nodes, Top(), height, min, Change(key, {Pair(key, value)}, leaf, [leaf, r]), next0, prev0, r);
          SpotSees(nodes, Top(), height, min);
        }
      } else {
        LeafHasRoom(nodes, top, key, h);
        InsertInLeaf(leaf, key, value);
        SpotSees(nodes, Top(), height, min);
      }
      stack := [];
      keyCount := keyCount + 1;
    }
  }

  // -------------------------------------------------------- listing the whole tree

  lemma {:induction false} AscendingCounts(s: seq<Pair>)
    requires Ascending(s)
    ensures |set p | p in s| == |s|
  {
    hide Ascending;
    if s != [] {
      var n := |s| - 1;
      var less := s[..n];
      AscendingLess(s);
      AscendingCounts(less);
      assert s == less + [s[n]];
      assert (set p | p in s) == (set p | p in less) + {s[n]};
    }
  }

  lemma AscendingLess(s: seq<Pair>)
    requires Ascending(s) && s != []
    ensures Ascending(s[..|s| - 1]) && s[|s| - 1] !in s[..|s| - 1]
  {
    assert forall i :: 0 <= i < |s| - 1 ==> s[..|s| - 1][i] == s[i];
  }

  /** Following the links from the first leaf lists the contents, keys ascending, each key once. */
  lemma ChainListsContents(m: Master, n: nat)
    requires m.Sound() && n >= |Leaves(m.nodes, m.root, m.height)|
    ensures var pairs := InOrder(m.nodes, Chain(m.next, Down(m.nodes, m.Top(), 1, m.height).off, n));
      Ascending(pairs) && |pairs| == m.keyCount && MapOf(set p | p in pairs) == m.Contents()
  {
    hide SubAt, Linked, Holds, Leaves, Down, Chain, InOrder, Ascending, MapOf;
    ChainAscends(m.nodes, m.next, m.prev, m.Top(), m.height, m.min, n);
    var pairs := InOrder(m.nodes, Chain(m.next, Down(m.nodes, m.Top(), 1, m.height).off, n));
    WithinIsAscending(pairs, 0, MAX_KEY);
    AscendingCounts(pairs);
  }

  // ------------------------------------------------------ what a split leaves alone

  /** Index node `ip` has been rewritten; half of it is in `sibling`, unless that is 0. */
  ghost predicate Rewritten(was: Nodes, now: Nodes, ip: nat, sibling: nat) {
    && (forall x :: x in was && x != ip ==> x in now && now[x] == was[x])
    && ip in was && ip in now && IsIndex(now[ip]) && (sibling == 0 <==> Width(was[ip]) < FANOUT)
    && (sibling == 0 ==> now[ip].root == was[ip].root)
    && (sibling != 0 ==> sibling !in was && sibling in now && IsIndex(now[sibling]) && HalfAt(now, ip))
  }

  /** The node at `off` has been split as an index node. */
  ghost predicate HalfAt(nodes: Nodes, off: nat) {
    off in nodes && nodes[off].num == HALF - 1 && !nodes[off].root
  }

  /** The loop of bp_split_tree `d` steps down the path: the change is complete there, or the node is
      split and all below it were full. */
  ghost predicate OnPath(nodes0: Nodes, nodes: Nodes, top: Spot, h: nat, min: nat, c: Change, d: nat, base: seq<nat>, stack: seq<nat>,
                         median: Pair, newChild: nat) {
    && d < h && |stack| == |base| + d && OnStack(nodes0, top, c.key, base, stack)
    && (newChild == 0 ==> Settled(nodes0, nodes, top, h, min, c, d) && !PathFull(nodes0, top, c.key, 0, h))
    && (newChild != 0 ==>
          && SplitBelow(nodes0, nodes, top, h, min, c, d, median, newChild) && PathFull(nodes0, top, c.key, d, h)
          && HalfAt(nodes, Down(nodes0, top, c.key, d).off) && newChild in nodes && IsIndex(nodes[newChild])
          && SplitLow(nodes0, nodes, Down(nodes0, top, c.key, d).off, median.key)
          && (d + 1 < h ==> SplitHigh(nodes0, nodes, Down(nodes0, top, c.key, d).off)))
    && KeptAside(nodes0, nodes, top, c.key, h)
  }

  /** Node `at`, which was full, ends with the key `mid` now, and that is not above its middle key before. */
  ghost predicate SplitLow(nodes0: Nodes, nodes: Nodes, at: nat, mid: nat) {
    && at in nodes && at in nodes0 && LastKey(nodes[at]) == mid && |Entries(nodes0[at])| == FANOUT
    && mid <= Entries(nodes0[at])[HALF - 1].key
  }

  /** The key before its last one is not below its middle key but two before. */
  ghost predicate SplitHigh(nodes0: Nodes, nodes: Nodes, at: nat) {
    && at in nodes && at in nodes0 && |Entries(nodes0[at])| == FANOUT && |Entries(nodes[at])| == HALF
    && Entries(nodes0[at])[HALF - 3].key <= Entries(nodes[at])[HALF - 2].key
  }

  /** Node `z` is not on the path of `key`. */
  ghost predicate Aside(nodes: Nodes, top: Spot, key: nat, h: nat, z: nat) {
    forall i: nat :: i <= h ==> Down(nodes, top, key, i).off != z
  }

  ghost predicate KeptAside(nodes0: Nodes, nodes: Nodes, top: Spot, key: nat, h: nat) {
    forall z :: z in nodes0 && Aside(nodes0, top, key, h, z) ==> z in nodes && nodes[z] == nodes0[z]
  }

  lemma StillAside(nodes0: Nodes, was: Nodes, now: Nodes, top: Spot, key: nat, h: nat, d: nat)
    requires KeptAside(nodes0, was, top, key, h) && d <= h
    requires forall z :: z in was && z != Down(nodes0, top, key, d).off ==> z in now && now[z] == was[z]
    ensures KeptAside(nodes0, now, top, key, h)
  {
    hide Down;
  }

  lemma AllAside(nodes: Nodes, top: Spot, key: nat, h: nat)
    ensures KeptAside(nodes, nodes, top, key, h)
  {
  }

  /** What the climb keeps besides. */
  lemma ClimbedLow(nodes0: Nodes, was: Nodes, now: Nodes, top: Spot, key: nat, d: nat, h: nat, ip: nat, sibling: nat, es: seq<Pair>, median: Pair)
    requires d < h && Rewritten(was, now, ip, sibling) && ip == Down(nodes0, top, key, d).off && KeptAside(nodes0, was, top, key, h)
    requires ip in nodes0 && ip in was && was[ip] == nodes0[ip] && IsIndex(was[ip]) && |es| == Width(was[ip]) + 1
    requires NotLater(es, Entries(nodes0[ip]))
    requires sibling != 0 ==> |es| == FANOUT + 1 && median == Pair(es[HALF - 1].key, ip) && Entries(now[ip]) == es[..HALF]
    ensures KeptAside(nodes0, now, top, key, h) && (sibling != 0 ==> SplitLow(nodes0, now, ip, median.key))
    ensures sibling != 0 && NotEarlier(es, Entries(nodes0[ip])) ==> SplitHigh(nodes0, now, ip)
  {
    hide Down, KeptAside, Entries;
    StillAside(nodes0, was, now, top, key, h, d);
    if sibling != 0 {
      assert Entries(now[ip])[HALF - 1] == es[HALF - 1] && Entries(now[ip])[HALF - 2] == es[HALF - 2];
      if NotEarlier(es, Entries(nodes0[ip])) {
        assert Entries(nodes0[ip])[HALF - 3].key <= es[HALF - 3 + 1].key;
      }
    }
  }

  // ----------------------------------------------------------- beyond the path

  /** The root has been split, in `half`, at the key `mid`; `upper` is its upper half. */
  ghost predicate Stray(nodes0: Nodes, half: Nodes, top: Spot, h: nat, min: nat, c: Change, mid: nat, upper: nat) {
    && SplitBelow(nodes0, half, top, h, min, c, 0, Pair(mid, top.off), upper) && SplitLow(nodes0, half, top.off, mid)
    && KeptAside(nodes0, half, top, c.key, h) && HalfAt(half, top.off) && (1 < h ==> SplitHigh(nodes0, half, top.off))
  }

  /** ... and then node `x` has been rewritten, if it had room. */
  ghost predicate Strayed(nodes0: Nodes, half: Nodes, nodes: Nodes, top: Spot, h: nat, min: nat, c: Change, mid: nat, upper: nat, x: nat) {
    && Stray(nodes0, half, top, h, min, c, mid, upper) && x in half && upper in half
    && (Width(half[x]) < FANOUT ==> Rehung(half, nodes, top.off, upper, h, x, Pair(LastKey(half[upper]), upper)))
  }

  lemma StrayStarts(nodes0: Nodes, half: Nodes, top: Spot, h: nat, min: nat, c: Change, median: Pair, upper: nat)
    requires SplitBelow(nodes0, half, top, h, min, c, 0, median, upper) && HalfAt(half, Down(nodes0, top, c.key, 0).off)
    requires SplitLow(nodes0, half, Down(nodes0, top, c.key, 0).off, median.key) && KeptAside(nodes0, half, top, c.key, h)
    requires 1 < h ==> SplitHigh(nodes0, half, Down(nodes0, top, c.key, 0).off)
    ensures Stray(nodes0, half, top, h, min, c, median.key, upper) && median == Pair(median.key, top.off)
  {
    hide KeptAside, SplitLow, SplitHigh, HalfAt, RootHalves;
  }

  lemma BaseTop(nodes: Nodes, root: nat, h: nat, base: seq<nat>)
    requires StackOk(nodes, root, h, base) && base != []
    ensures base[|base| - 1] in Reach(nodes, root, h) && base[..|base|] == base
  {
  }

  /** Later rounds come only after a node without room. */
  lemma StrayOn(nodes0: Nodes, half: Nodes, was: Nodes, now: Nodes, top: Spot, h: nat, min: nat, c: Change, mid: nat, upper: nat, x: nat)
    requires Strayed(nodes0, half, was, top, h, min, c, mid, upper, x) && Width(half[x]) >= FANOUT
    ensures Strayed(nodes0, half, now, top, h, min, c, mid, upper, x)
  {
  }

  lemma StrayHalves(nodes0: Nodes, half: Nodes, top: Spot, h: nat, min: nat, c: Change, mid: nat, upper: nat)
    requires Stray(nodes0, half, top, h, min, c, mid, upper) && top.lo == 0 && top.hi == MAX_KEY
    ensures RootHalves(half, top.off, upper, h, mid, min)
    ensures Holds(half, top.off, h) + Holds(half, upper, h) == Without(Holds(nodes0, top.off, h), c.key) + c.add
    ensures Reach(nodes0, top.off, h) <= Reach(half, top.off, h) + Reach(half, upper, h)
  {
    hide Sub, Reach, Holds, Leaves, Spliced, Without, OnlyIn, KeptAside, SplitLow, HalfAt;
    assert Down(nodes0, top, c.key, 0) == top;
  }

  /** Where the popped node stands. */
  lemma StrayNode(nodes0: Nodes, half: Nodes, top: Spot, h: nat, min: nat, c: Change, mid: nat, upper: nat, x: nat)
    requires Stray(nodes0, half, top, h, min, c, mid, upper) && top.lo == 0 && top.hi == MAX_KEY && h > 0
    requires x in Reach(nodes0, top.off, h) && x in half && IsIndex(half[x])
    ensures x in Reach(half, top.off, h) + Reach(half, upper, h) && upper in half
    ensures x in Reach(half, top.off, h) ==> LiesBefore(half[x], half[upper], Pair(mid, top.off)) && Inner(half, x)
  {
    hide Sub, Reach, Holds, Within, Shaped, Stray, LastKey, AllBefore, Entries;
    StrayHalves(nodes0, half, top, h, min, c, mid, upper);
    NodeFacts(half, upper, h, mid, MAX_KEY, min, false);
    SelfReached(half, upper, h);
    NodeWithin(half, upper, h, mid, MAX_KEY, min, false, upper);
    AboveLow(half[upper], mid, MAX_KEY);
    if x in Reach(half, top.off, h) {
      NodeWithin(half, top.off, h, 0, mid, min, false, x);
      forall i | 0 <= i < |Entries(half[x])| ensures Entries(half[x])[i].item != top.off {
        NoChild(half, top.off, h, 0, mid, min, false, x, i);
      }
      WithinBefore(Entries(half[x]), mid, Pair(mid, top.off), Pair(LastKey(half[upper]), 0));
    }
  }

  lemma WithinBefore(es: seq<Pair>, mid: nat, x: Pair, y: Pair)
    requires Within(es, 0, mid) && es != [] && x.key == mid < y.key
    ensures AllBefore(es, x, y)
  {
    var n := |es| - 1;
    forall i | 0 <= i < n ensures es[i].key < x.key {
      assert es[i].key < es[n].key;
    }
  }

  lemma FirstStray(nodes0: Nodes, half: Nodes, nodes: Nodes, top: Spot, h: nat, min: nat, c: Change, mid: nat, upper: nat, x: nat)
    requires Stray(nodes0, half, top, h, min, c, mid, upper) && top.lo == 0 && top.hi == MAX_KEY && h > 0
    requires x in Reach(nodes0, top.off, h) && x in half && IsIndex(half[x]) && upper in half
    requires Width(half[x]) < FANOUT ==> x in nodes && IsIndex(nodes[x]) && nodes == half[x := nodes[x]]
    requires Width(half[x]) < FANOUT && LiesBefore(half[x], half[upper], Pair(mid, top.off)) ==>
      Entries(nodes[x]) == Entries(half[x]) + [Pair(LastKey(half[upper]), upper)]
    ensures Strayed(nodes0, half, nodes, top, h, min, c, mid, upper, x)
  {
    hide Reach, Stray, LiesBefore, LastKey, Entries;
    StrayNode(nodes0, half, top, h, min, c, mid, upper, x);
  }

  /** What searches see then, if node `x` had room: all pairs exactly when `x` lies on the right border of the
      lower half, with no key behind its last one. */
  lemma StraySees(nodes0: Nodes, half: Nodes, nodes: Nodes, top: Spot, h: nat, min: nat, c: Change, mid: nat, upper: nat, x: nat)
    requires Strayed(nodes0, half, nodes, top, h, min, c, mid, upper, x) && top.lo == 0 && top.hi == MAX_KEY && min >= 1
    requires Width(half[x]) < FANOUT
    ensures var pairs := Without(Holds(nodes0, top.off, h), c.key) + c.add;
      Sees(nodes, top.off, MapOf(pairs)) <==> StillThere(pairs, half, top.off, h, mid, x)
  {
    hide Stray, RootHalves, Rehung, Sees, StillThere, Holds, MapOf, Without;
    StrayHalves(nodes0, half, top, h, min, c, mid, upper);
    RehungSees(half, nodes, top.off, upper, h, mid, min, x, Pair(LastKey(half[upper]), upper));
  }

  /** A tree of height 1 loses nothing: the popped node is the root. */
  lemma StrayFlat(nodes0: Nodes, half: Nodes, nodes: Nodes, top: Spot, min: nat, c: Change, mid: nat, upper: nat, x: nat)
    requires Strayed(nodes0, half, nodes, top, 1, min, c, mid, upper, x) && top.lo == 0 && top.hi == MAX_KEY && min >= 1
    requires SubAt(nodes0, top, 1, min, true) && x in Reach(nodes0, top.off, 1) && x in nodes0 && !nodes0[x].leaf
    ensures Sees(nodes, top.off, MapOf(Without(Holds(nodes0, top.off, 1), c.key) + c.add))
  {
    hide Sub, Rehung, Sees, Holds, MapOf, Without, Reach;
    SubAtIs(nodes0, top, 1, min, true);
    NodeWithin(nodes0, top.off, 1, top.lo, top.hi, min, true, x);
    assert Width(half[x]) < FANOUT;
    StraySees(nodes0, half, nodes, top, 1, min, c, mid, upper, x);
    assert Passes(half, top.off, mid, 1, x);
  }

  /** A popped node away from the middle of the root: nothing behind the middle is found again. */
  lemma StrayLoses(nodes0: Nodes, half: Nodes, nodes: Nodes, top: Spot, h: nat, min: nat, c: Change, mid: nat, upper: nat, x: nat,
                   key: nat, item: nat)
    requires Strayed(nodes0, half, nodes, top, h, min, c, mid, upper, x) && top.lo == 0 && top.hi == MAX_KEY && h > 1
    requires OffMiddle(nodes0, top, c.key, h, x) && key > Middle(nodes0, top.off)
    ensures !Finds(nodes, top.off, key, item)
  {
    hide SplitBelow, RootHalves, Rehung, Finds, Holds, Reach, Sub, Entries, LastKey;
    assert half[x] == nodes0[x];
    assert x != top.off by { assert Down(nodes0, top, c.key, 0).off == top.off; }
    hide Aside;
    StrayHalves(nodes0, half, top, h, min, c, mid, upper);
    OffBorder(nodes0, half, top.off, upper, h, mid, min, x);
    OffBorderLoses(half, nodes, top.off, upper, h, mid, min, x, Pair(LastKey(half[upper]), upper), key, item);
  }

  /** Such a node is not on the right border of the lower half. */
  lemma OffBorder(nodes0: Nodes, half: Nodes, r: nat, s: nat, h: nat, mid: nat, min: nat, x: nat)
    requires RootHalves(half, r, s, h, mid, min) && h > 1 && x != r && x in half && Entries(half[x]) != []
    requires SplitLow(nodes0, half, r, mid) && SplitHigh(nodes0, half, r)
    requires Entries(half[x])[0].key > Entries(nodes0[r])[HALF - 1].key || Entries(half[x])[0].key <= Entries(nodes0[r])[HALF - 3].key
    ensures !Passes(half, r, mid, h, x)
  {
    hide Sub, Reach, Holds, LastKey, Entries, Within, NextOf, Low, High, Shaped;
    if Passes(half, r, mid, h, x) {
      SecondLast(half, r, h, 0, mid, min, false);
      LastRoute(half, r, h, 0, mid, min, false, mid);
      NextIsKid(half, r, h, 0, mid, min, false, mid);
      var es := Entries(half[r]);
      var kid := es[|es| - 1].item;
      NotPassed(half, kid, h - 1, es[|es| - 2].key, mid, min, false, x, mid);
      NodeWithin(half, kid, h - 1, es[|es| - 2].key, mid, min, false, x);
      FirstWithin(Entries(half[x]), es[|es| - 2].key, mid);
    }
  }

  lemma OffBorderLoses(half: Nodes, nodes: Nodes, r: nat, s: nat, h: nat, mid: nat, min: nat, x: nat, y: Pair, key: nat, item: nat)
    requires RootHalves(half, r, s, h, mid, min) && Rehung(half, nodes, r, s, h, x, y) && !Passes(half, r, mid, h, x) && key > mid
    ensures !Finds(nodes, r, key, item)
  {
    hide Sub, Reach, Holds, Finds, SearchEnds, Hung, LastKey, Passes, Entries;
    RightBorder(half, r, h, 0, mid, min, false, key, x);
    RehungFinds(half, nodes, r, s, h, mid, min, x, y, Pair(key, item));
    if Pair(key, item) in Holds(half, r, h) { HeldWithin(half, r, h, 0, mid, min, false, Pair(key, item)); }
  }

  ghost function Middle(nodes: Nodes, root: nat): nat {
    if root in nodes && |Entries(nodes[root])| >= HALF then Entries(nodes[root])[HALF - 1].key else 0
  }

  /** Node `x` has room, is not on the path of `key`, and does not belong to the two children in the middle of
      the root. */
  ghost predicate OffMiddle(nodes: Nodes, top: Spot, key: nat, h: nat, x: nat) {
    && x in nodes && Aside(nodes, top, key, h, x) && Width(nodes[x]) < FANOUT && Entries(nodes[x]) != []
    && top.off in nodes && |Entries(nodes[top.off])| >= HALF
    && var es, first := Entries(nodes[top.off]), Entries(nodes[x])[0].key; first > es[HALF - 1].key || first <= es[HALF - 3].key
  }

  lemma SpotSees(nodes: Nodes, top: Spot, h: nat, min: nat)
    requires SubAt(nodes, top, h, min, true)
    ensures Sees(nodes, top.off, MapOf(Holds(nodes, top.off, h)))
  {
    SubSees(nodes, top.off, h, top.lo, top.hi, min, true);
  }

  /** What an insertion does to searches when it is stray. */
  lemma StrayInsert(nodes0: Nodes, half: Nodes, nodes: Nodes, top: Spot, h: nat, min: nat, c: Change, mid: nat, upper: nat, base: seq<nat>)
    requires SubAt(nodes0, top, h, min, true) && top.lo == 0 && top.hi == MAX_KEY && min >= 1 && StackOk(nodes0, top.off, h, base) && base != []
    requires Strayed(nodes0, half, nodes, top, h, min, c, mid, upper, base[|base| - 1])
    ensures h == 1 ==> Sees(nodes, top.off, MapOf(Without(Holds(nodes0, top.off, h), c.key) + c.add))
    ensures h > 1 && OffMiddle(nodes0, top, c.key, h, base[|base| - 1]) ==>
      forall k, item :: k > Middle(nodes0, top.off) ==> !Finds(nodes, top.off, k, item)
  {
    hide SubAt, Sub, Strayed, Sees, Holds, MapOf, Without, Finds, Reach, Aside, Entries;
    var x := base[|base| - 1];
    BaseTop(nodes0, top.off, h, base);
    if h == 1 { StrayFlat(nodes0, half, nodes, top, min, c, mid, upper, x); }
    if h > 1 && OffMiddle(nodes0, top, c.key, h, x) {
      forall k, item | k > Middle(nodes0, top.off) ensures !Finds(nodes, top.off, k, item) {
        StrayLoses(nodes0, half, nodes, top, h, min, c, mid, upper, x, k, item);
      }
    }
  }

  lemma FirstWithin(es: seq<Pair>, lo: nat, hi: nat)
    requires Within(es, lo, hi) && es != []
    ensures lo < es[0].key <= hi
  {
  }

  /** The loop beyond the path: the root is a mere half, and what is left on the stack is from `base`. */
  ghost predicate OffPath(nodes: Nodes, root: nat, base: seq<nat>, stack: seq<nat>, newChild: nat) {
    && base != [] && |stack| <= |base| && stack == base[..|stack|] && root in nodes && !nodes[root].root
    && (newChild != 0 ==> stack != [] && HalfAt(nodes, root) && newChild in nodes && IsIndex(nodes[newChild]))
  }

  lemma BaseIndex(nodes: Nodes, root: nat, h: nat, base: seq<nat>)
    requires StackOk(nodes, root, h, base)
    ensures AllIndex(nodes, base)
  {
  }

  lemma LeafIsFull(nodes: Nodes, top: Spot, key: nat, h: nat)
    requires Down(nodes, top, key, h).off in nodes && Width(nodes[Down(nodes, top, key, h).off]) == FANOUT
    ensures PathFull(nodes, top, key, h, h)
  {
    hide Down;
    assert FullAt(nodes, top, key, h);
  }

  lemma BaseKept(was: Nodes, now: Nodes, base: seq<nat>, dp: nat)
    requires AllIndex(was, base) && dp in was && was[dp].leaf && forall z :: z in was && z != dp ==> z in now && now[z] == was[z]
    ensures AllIndex(now, base)
  {
  }

  /** A tree whose root is not marked as one is not valid, whatever its height. */
  lemma Unmarked(nodes: Nodes, top: Spot, h: nat, min: nat)
    requires top.off in nodes && !nodes[top.off].root
    ensures !SubAt(nodes, top, h, min, true)
  {
  }

  lemma LeafHasRoom(nodes: Nodes, top: Spot, key: nat, h: nat)
    requires Down(nodes, top, key, h).off in nodes && Width(nodes[Down(nodes, top, key, h).off]) < FANOUT
    ensures !PathFull(nodes, top, key, 0, h)
  {
    hide Down;
    assert !FullAt(nodes, top, key, h);
  }

  lemma RoomyIndex(n: Node, es: seq<Pair>, top: bool)
    requires Roomy(n, es, top)
    ensures IsIndex(n) && |es| == Width(n) + 1
  {
  }

  /** One step up the path. */
  lemma Climbed(nodes0: Nodes, was: Nodes, now: Nodes, top: Spot, key: nat, d: nat, h: nat, base: seq<nat>, ip: nat, sibling: nat)
    requires PathFull(nodes0, top, key, d + 1, h) && d < h && Rewritten(was, now, ip, sibling) && ip == Down(nodes0, top, key, d).off
    requires ip in nodes0 && ip in was && was[ip] == nodes0[ip] && AllIndex(was, base) && IsIndex(was[ip])
    ensures AllIndex(now, base) && (sibling != 0 ==> sibling in now && IsIndex(now[sibling]))
    ensures sibling == 0 ==> !PathFull(nodes0, top, key, 0, h)
    ensures sibling != 0 ==> PathFull(nodes0, top, key, d, h) && HalfAt(now, ip)
  {
    hide Down, PathFull;
    PathFullMore(nodes0, top, key, d, h);
    RewrittenBase(was, now, base, ip, sibling);
  }

  lemma RewrittenBase(was: Nodes, now: Nodes, base: seq<nat>, ip: nat, sibling: nat)
    requires AllIndex(was, base) && Rewritten(was, now, ip, sibling)
    ensures AllIndex(now, base)
  {
    hide IsIndex;
  }

  lemma PathDone(nodes: Nodes, top: Spot, key: nat, base: seq<nat>, stack: seq<nat>)
    requires OnStack(nodes, top, key, base, stack) && |stack| == |base|
    ensures stack == base
  {
  }

  lemma StaleEntry(nodes: Nodes, base: seq<nat>, stack: seq<nat>, ip: nat)
    requires AllIndex(nodes, base) && |stack| < |base| && stack + [ip] == base[..|stack| + 1]
    ensures ip in nodes && IsIndex(nodes[ip]) && stack == base[..|stack|]
  {
    hide IsIndex;
    assert (stack + [ip])[|stack|] == base[|stack|];
    assert stack == (stack + [ip])[..|stack|];
  }

  lemma StaleRoot(nodes: Nodes, root: nat, h: nat, base: seq<nat>, stack: seq<nat>, ip: nat)
    requires StackOk(nodes, root, h, base) && |stack| < |base| && stack + [ip] == base[..|stack| + 1]
    ensures stack == [] ==> ip == root
  {
    assert (stack + [ip])[0] == base[0];
  }

  /** A node off the path is rewritten; the halved root does not overflow. */
  lemma StaleStep(was: Nodes, now: Nodes, base: seq<nat>, ip: nat, sibling: nat, root: nat)
    requires AllIndex(was, base) && Rewritten(was, now, ip, sibling) && HalfAt(was, root) && IsIndex(was[ip])
    ensures AllIndex(now, base) && (sibling != 0 ==> sibling in now && IsIndex(now[sibling]))
    ensures root in now && !now[root].root && (ip == root ==> sibling == 0) && (sibling != 0 ==> HalfAt(now, root))
  {
    RewrittenBase(was, now, base, ip, sibling);
  }

  /** What is known of the node `d` steps down the path of `key`. */
  ghost predicate Standing(nodes: Nodes, top: Spot, h: nat, min: nat, key: nat, d: nat) {
    var at := Down(nodes, top, key, d);
    var off := at.off;
    && d <= h && SubAt(nodes, at, h - d, min, d == 0) && at.lo < key <= at.hi
    && off in nodes && off != 0 && nodes[off].leaf == (d == h) && nodes[off].root == (d == 0) && Shaped(nodes[off])
    && Within(Entries(nodes[off]), at.lo, at.hi) && |Entries(nodes[off])| == Width(nodes[off])
    && (d < h ==> |Entries(nodes[off])| >= 2)
  }

  lemma StepFacts(nodes: Nodes, top: Spot, h: nat, min: nat, key: nat, d: nat)
    requires SubAt(nodes, top, h, min, true) && top.lo < key <= top.hi && d <= h
    ensures Standing(nodes, top, h, min, key, d)
  {
    hide Sub, Holds, Reach, Leaves, Kids, HoldsAll, ReachAll, LeavesAll, Shaped, Entries, Within, Down;
    DownIsSub(nodes, top, h, min, true, key, d);
    var at := Down(nodes, top, key, d);
    SubKids(nodes, at.off, h - d, at.lo, at.hi, min, d == 0);
    NodeFacts(nodes, at.off, h - d, at.lo, at.hi, min, d == 0);
  }

  lemma StandingNode(nodes: Nodes, top: Spot, h: nat, min: nat, key: nat, d: nat)
    requires Standing(nodes, top, h, min, key, d)
    ensures var at := Down(nodes, top, key, d); var off := at.off;
      && SubAt(nodes, at, h - d, min, d == 0) && at.lo < key <= at.hi
      && off in nodes && off != 0 && nodes[off].leaf == (d == h) && nodes[off].root == (d == 0) && Shaped(nodes[off])
      && Ascending(Entries(nodes[off])) && |Entries(nodes[off])| == Width(nodes[off])
    ensures var at := Down(nodes, top, key, d); var off := at.off;
      d < h ==> |Entries(nodes[off])| >= 2 && Below(nodes, at, key).off == Entries(nodes[off])[Route(Entries(nodes[off]), key)].item
  {
    hide SubAt, Shaped, Entries, Down, Ascending;
  }

  // ------------------------------------------------------------------ one leaf

  /** The outcome of looking for `key` in a leaf. */
  ghost predicate LookedUp(es: seq<Pair>, key: nat, index: int) {
    index < |es| && if index < 0 then !HasKey(es, key) else es[index].key == key
  }

  lemma FoundIs(nodes: Nodes, top: Spot, h: nat, min: nat, key: nat, index: int)
    requires SubAt(nodes, top, h, min, true) && top.lo < key <= top.hi && Standing(nodes, top, h, min, key, h)
    requires LookedUp(Entries(nodes[Down(nodes, top, key, h).off]), key, index)
    ensures var m := MapOf(Holds(nodes, top.off, h)); var es := Entries(nodes[Down(nodes, top, key, h).off]);
      (index >= 0) == (key in m) && (index >= 0 ==> m[key] == es[index].item)
  {
    var s, off := Holds(nodes, top.off, h), Down(nodes, top, key, h).off;
    var es := Entries(nodes[off]);
    StandingNode(nodes, top, h, min, key, h);
    assert Holds(nodes, off, 0) == set p | p in es;
    hide Sub, Standing, Holds, MapOf, Down, Entries;
    SubAtIs(nodes, top, h, min, true);
    HoldsUnique(nodes, top.off, h, top.lo, top.hi, min, true);
    MapOfIs(s, key);
    if index >= 0 {
      HeldOnPath(nodes, top, h, min, true, es[index]);
      assert es[index] == Pair(key, es[index].item);
    } else if key in MapOf(s) {
      var p := Pair(key, MapOf(s)[key]);
      HeldOnPath(nodes, top, h, min, true, p);
    }
  }

  /** Entries `es` for the leaf on the path of `key`: as before, but `add` for `key`. */
  ghost predicate NewLeaf(nodes: Nodes, top: Spot, h: nat, min: nat, key: nat, es: seq<Pair>, add: set<Pair>) {
    var at := Down(nodes, top, key, h);
    && at.off in nodes && Within(es, at.lo, at.hi) && (h == 0 || |es| >= min)
    && Pairs(es) == Without(Pairs(Entries(nodes[at.off])), key) + add
  }

  lemma LeafRewritten(nodes: Nodes, top: Spot, h: nat, min: nat, key: nat, es: seq<Pair>, add: set<Pair>)
    requires SubAt(nodes, top, h, min, true) && Standing(nodes, top, h, min, key, h) && top.lo < key <= top.hi
    requires |es| <= FANOUT && NewLeaf(nodes, top, h, min, key, es, add)
    ensures var off := Down(nodes, top, key, h).off; var nodes' := nodes[off := LeafNode(h == 0, es)];
      && SubAt(nodes', top, h, min, true) && Leaves(nodes', top.off, h) == Leaves(nodes, top.off, h)
      && Holds(nodes', top.off, h) == Without(Holds(nodes, top.off, h), key) + add && nodes'.Keys == nodes.Keys
  {
    hide Sub, SubAt, Holds, Leaves, Down, LeafNode, Within, Pairs, Without, Reach, Entries, Spliced;
    StandingNode(nodes, top, h, min, key, h);
    var at := Down(nodes, top, key, h);
    var c := Change(key, add, at.off, [at.off]);
    var nodes' := nodes[at.off := LeafNode(h == 0, es)];
    LeafUpdated(nodes, at, min, h == 0, es, c);
    Lift(nodes, nodes', top, h, min, true, c, h);
    SplicedSame(Leaves(nodes, top.off, h), Leaves(nodes', top.off, h), c);
  }

  lemma SplicedSame(was: seq<nat>, now: seq<nat>, c: Change)
    requires Spliced(was, now, c) && c.mid == [c.dp]
    ensures now == was
  {
  }

  /** How many pairs the leaf on the path of `key` holds. */
  ghost function LeafWidth(nodes: Nodes, top: Spot, key: nat, h: nat): nat {
    var off := Down(nodes, top, key, h).off;
    if off in nodes then |Entries(nodes[off])| else 0
  }

  lemma SpotUnique(nodes: Nodes, at: Spot, h: nat, min: nat, top: bool)
    requires SubAt(nodes, at, h, min, top)
    ensures Unique(Holds(nodes, at.off, h))
  {
    HoldsUnique(nodes, at.off, h, at.lo, at.hi, min, top);
  }

  /** A new item for the pair at `index`. */
  lemma ReplaceReady(nodes: Nodes, top: Spot, h: nat, min: nat, key: nat, index: int, item: nat)
    requires Standing(nodes, top, h, min, key, h) && index >= 0
    requires LookedUp(Entries(nodes[Down(nodes, top, key, h).off]), key, index)
    ensures NewLeaf(nodes, top, h, min, key, Entries(nodes[Down(nodes, top, key, h).off])[index := Pair(key, item)], {Pair(key, item)})
  {
    var at := Down(nodes, top, key, h);
    var es := Entries(nodes[at.off]);
    LeafWide(nodes, top, h, min, key);
    hide Down, Entries, SubAt, Pairs, Without, Shaped;
    PairsReplaced(es, index, item, at.lo, at.hi);
  }

  lemma LeafWide(nodes: Nodes, top: Spot, h: nat, min: nat, key: nat)
    requires Standing(nodes, top, h, min, key, h)
    ensures var off := Down(nodes, top, key, h).off; off in nodes && (h == 0 || |Entries(nodes[off])| >= min)
  {
  }

  lemma ReplacedNode(n: Node, index: int, p: Pair)
    requires Shaped(n) && n.leaf && 0 <= index < |Entries(n)|
    ensures var es := Entries(n);
      |es| <= FANOUT && n.pairs[index] == es[index] && n.(pairs := n.pairs[index := p]) == LeafNode(n.root, es[index := p])
  {
    var es := Entries(n);
    PaddedIs(n.pairs[index := p], es[index := p]);
  }

  lemma DroppedIs(was: seq<Pair>, now: seq<Pair>, index: nat, num: nat)
    requires index < num <= |was| == |now| && (forall k :: 0 <= k < index ==> now[k] == was[k])
    requires (forall k :: index < k < num ==> now[k - 1] == was[k]) && forall k :: num - 1 <= k < |now| ==> now[k] == NULL
    ensures now == Padded(was[..num][..index] + was[..num][index + 1..], |now|)
  {
    var es := was[..num];
    var t := es[..index] + es[index + 1..];
    assert |t| == num - 1;
    forall k | 0 <= k < |t| ensures now[k] == t[k] {
      assert k >= index ==> now[(k + 1) - 1] == was[k + 1];
    }
    assert now[..|t|] == t;
    PaddedIs(now, t);
  }

  lemma RemoveReady(nodes: Nodes, top: Spot, h: nat, min: nat, key: nat, index: int)
    requires Standing(nodes, top, h, min, key, h) && index >= 0 && min <= 1
    requires LookedUp(Entries(nodes[Down(nodes, top, key, h).off]), key, index)
    requires h == 0 || LeafWidth(nodes, top, key, h) >= 2
    ensures var es := Entries(nodes[Down(nodes, top, key, h).off]);
      index < |es| && NewLeaf(nodes, top, h, min, key, es[..index] + es[index + 1..], {})
  {
    var at := Down(nodes, top, key, h);
    var es := Entries(nodes[at.off]);
    hide Down, Entries, SubAt, Pairs, Without, Shaped;
    PairsRemoved(es, index, at.lo, at.hi);
  }

  /** The fewest pairs of a leaf may be set lower. */
  lemma {:induction false} LoosenSub(nodes: Nodes, off: nat, h: nat, lo: nat, hi: nat, min: nat, min': nat, top: bool)
    requires Sub(nodes, off, h, lo, hi, min, top) && min' <= min
    ensures Sub(nodes, off, h, lo, hi, min', top)
    decreases h
  {
    if h > 0 {
      var es := Entries(nodes[off]);
      assert Kids(nodes, es, h - 1, lo, hi, min);
      forall i | 0 <= i < |es| ensures Sub(nodes, es[i].item, h - 1, Low(es, i, lo), High(es, i, hi), min', false) {
        KidValid(nodes, es, h - 1, lo, hi, min, i);
        LoosenSub(nodes, es[i].item, h - 1, Low(es, i, lo), High(es, i, hi), min, min', false);
      }
      assert AllSub(nodes, es, h - 1, lo, hi, min') && Kids(nodes, es, h - 1, lo, hi, min');
    }
  }

  lemma Loosen(nodes: Nodes, top: Spot, h: nat, min: nat, key: nat)
    requires SubAt(nodes, top, h, min, true) && min >= 1 && top.lo < key <= top.hi
    ensures SubAt(nodes, top, h, 1, true) && Standing(nodes, top, h, 1, key, h)
  {
    LoosenSub(nodes, top.off, h, top.lo, top.hi, min, 1, true);
    StepFacts(nodes, top, h, 1, key, h);
  }

  // ------------------------------------------------------------------ counting

  lemma PutCounts(s: set<Pair>, key: nat, item: nat)
    requires Unique(s)
    ensures var t := Without(s, key) + {Pair(key, item)};
      MapOf(t) == MapOf(s)[key := item] && |t| == |s| + if key in MapOf(s) then 0 else 1
  {
    MapPut(s, key, item);
    WithoutCounts(s, key);
  }

  lemma DropCounts(s: set<Pair>, key: nat)
    requires Unique(s)
    ensures var t := Without(s, key) + {};
      MapOf(t) == MapOf(s) - {key} && |t| == |s| - if key in MapOf(s) then 1 else 0
  {
    MapDrop(s, key);
    WithoutCounts(s, key);
    assert Without(s, key) + {} == Without(s, key);
  }

  lemma WithoutCounts(s: set<Pair>, key: nat)
    requires Unique(s)
    ensures |Without(s, key)| == |s| - if key in MapOf(s) then 1 else 0
  {
    MapOfIs(s, key);
    if key in MapOf(s) {
      var p := Pair(key, MapOf(s)[key]);
      assert s == Without(s, key) + {p};
    } else {
      assert s == Without(s, key);
    }
  }

  // ----------------------------------------------------------------- insertion

  lemma InsertReady(nodes: Nodes, top: Spot, h: nat, min: nat, key: nat, item: nat)
    requires Standing(nodes, top, h, min, key, h) && !HasKey(Entries(nodes[Down(nodes, top, key, h).off]), key)
    ensures var es := Entries(nodes[Down(nodes, top, key, h).off]);
      NewLeaf(nodes, top, h, min, key, Inserted(es, Pair(key, item)), {Pair(key, item)})
  {
    var at := Down(nodes, top, key, h);
    var es := Entries(nodes[at.off]);
    LeafWide(nodes, top, h, min, key);
    hide Down, Entries, SubAt, Pairs, Without, Shaped, Inserted, HasKey;
    PairsInserted(es, Pair(key, item), at.lo, at.hi);
  }

  lemma FreeSlot(n: Node)
    requires Shaped(n) && n.leaf && n.num < FANOUT
    ensures |n.pairs| == FANOUT && n.pairs[..n.num] == Entries(n) && n.pairs[n.num] == NULL
  {
  }

  lemma InsertedNode(n: Node, es: seq<Pair>, p: Pair, pairs: seq<Pair>)
    requires Shaped(n) && n.leaf && n.num < FANOUT && es == Entries(n)
    requires pairs == Inserted(n.pairs[..n.num], p) + n.pairs[n.num + 1..]
    ensures |Inserted(es, p)| <= FANOUT && n.(pairs := pairs, num := n.num + 1) == LeafNode(n.root, Inserted(es, p))
  {
    hide Inserted;
    var r := Inserted(es, p);
    assert pairs[..|r|] == r;
    assert forall k :: |r| <= k < |pairs| ==> pairs[k] == n.pairs[k];
    PaddedIs(pairs, r);
  }

  // ------------------------------------------------------------- climbing up

  /** The change `c` is complete `d` steps down the path. */
  ghost predicate Settled(nodes: Nodes, nodes': Nodes, top: Spot, h: nat, min: nat, c: Change, d: nat) {
    var at := Down(nodes, top, c.key, d);
    d <= h && Updated(nodes, nodes', at, h - d, min, d == 0, c) && OnlyIn(nodes, nodes', Reach(nodes, at.off, h - d))
  }

  /** The node `d` steps down the path has been split, its upper half is `r`. */
  ghost predicate SplitBelow(nodes: Nodes, nodes': Nodes, top: Spot, h: nat, min: nat, c: Change, d: nat, median: Pair, r: nat) {
    var at := Down(nodes, top, c.key, d);
    && d <= h && Halved(nodes, nodes', at, h - d, min, c, median.key, r) && OnlyIn(nodes, nodes', Reach(nodes, at.off, h - d))
    && median.item == at.off && r != 0
  }

  /** The index node `d` steps down the path is to get the pairs `es`. */
  ghost predicate ReadyFor(nodes: Nodes, nodes': Nodes, top: Spot, h: nat, min: nat, c: Change, d: nat, es: seq<Pair>) {
    var at := Down(nodes, top, c.key, d);
    d < h && NewEntries(nodes, nodes', at, h - d, min, c, es) && at.off in Reach(nodes, at.off, h - d)
  }

  /** One pair more than index node `n` has now. */
  ghost predicate Roomy(n: Node, es: seq<Pair>, top: bool) {
    && Shaped(n) && !n.leaf && n.root == top && |es| == Width(n) + 1 && Width(n) >= (if top then 2 else HALF)
  }

  lemma RoomyNode(n: Node, es: seq<Pair>, top: bool)
    requires Roomy(n, es, top) && |es| <= FANOUT
    ensures n.(num := |es| - 1, pairs := es + n.pairs[|es|..]) == IndexNode(top, es)
  {
    var pairs := es + n.pairs[|es|..];
    assert pairs[..|es|] == es;
    assert forall k :: |es| <= k < FANOUT ==> pairs[k] == n.pairs[k];
    PaddedIs(pairs, es);
  }

  lemma RoomyBounds(n: Node, es: seq<Pair>, top: bool)
    requires Roomy(n, es, top)
    ensures |n.pairs| == FANOUT && 2 <= |es| <= FANOUT + 1 && HALF <= |es| + if top then HALF else 0
  {
  }

  lemma HalfNodes(es: seq<Pair>)
    requires |es| == FANOUT + 1
    ensures |es| / 2 == HALF && es[0..HALF] == es[..HALF] && es[HALF..HALF + HALF] == es[HALF..]
    ensures IndexNode(false, es[..HALF]) == Node(false, false, HALF - 1, Padded(es[..HALF], FANOUT))
    ensures IndexNode(false, es[HALF..]) == Node(false, false, HALF - 1, Padded(es[HALF..], FANOUT))
  {
  }

  lemma LastOfHalf(es: seq<Pair>)
    requires |es| == FANOUT + 1
    ensures Entries(Node(false, false, HALF - 1, Padded(es[..HALF], FANOUT))) == es[..HALF]
  {
    assert Padded(es[..HALF], FANOUT)[..HALF] == es[..HALF];
  }

  lemma FitsIn(nodes: Nodes, nodes': Nodes, top: Spot, h: nat, min: nat, c: Change, d: nat, es: seq<Pair>)
    requires ReadyFor(nodes, nodes', top, h, min, c, d, es) && HALF <= |es| + (if d == 0 then HALF else 0) && 2 <= |es| <= FANOUT
    ensures Settled(nodes, nodes'[Down(nodes, top, c.key, d).off := IndexNode(d == 0, es)], top, h, min, c, d)
  {
    hide Down, NewEntries, Updated, OnlyIn, Reach, IndexNode;
    NoOverflow(nodes, nodes', Down(nodes, top, c.key, d), h - d, min, d == 0, c, es);
  }

  lemma SplitsUp(nodes: Nodes, nodes': Nodes, top: Spot, h: nat, min: nat, c: Change, d: nat, es: seq<Pair>, r: nat)
    requires ReadyFor(nodes, nodes', top, h, min, c, d, es) && |es| == FANOUT + 1 && r != 0 && r !in nodes'
    ensures var off := Down(nodes, top, c.key, d).off;
      SplitBelow(nodes, nodes'[off := IndexNode(false, es[..HALF])][r := IndexNode(false, es[HALF..])], top, h, min, c, d,
                 Pair(es[HALF - 1].key, off), r)
  {
    hide Down, NewEntries, Halved, OnlyIn, Reach, IndexNode;
    Overflow(nodes, nodes', Down(nodes, top, c.key, d), h - d, min, c, es, r);
  }

  // -------------------------------------------------- the pairs a parent gets

  lemma MergeOk(a: seq<Pair>, e: Pair, b: seq<Pair>, lo: nat, hi: nat, x: Pair, y: Pair)
    requires Within(a + [e] + b, lo, hi) && Bound(a, lo) < x.key < y.key && (b != [] ==> y.key <= e.key)
    ensures Mergeable(a, x, y, b)
  {
    WithinParts(a, e, b, lo, hi);
    AscendingRest(a, e, b);
    forall i | 0 <= i < |a| ensures a[i].key < x.key {
      assert a[i].key <= Bound(a, lo);
    }
  }

  /** The child `e` is the only one with its offset. */
  lemma OnlyChild(nodes: Nodes, a: seq<Pair>, e: Pair, b: seq<Pair>, h: nat, lo: nat, hi: nat, min: nat)
    requires Kids(nodes, a + [e] + b, h, lo, hi, min)
    ensures OnlyItem(a + [e] + b, |a|, e.item)
  {
    var es := a + [e] + b;
    assert es[|a|] == e;
    forall i | 0 <= i < |es| && i != |a| ensures es[i].item != e.item {
      SelfIn(nodes, es, h, lo, hi, min, i);
      SelfIn(nodes, es, h, lo, hi, min, |a|);
      assert if i < |a| then Reach(nodes, es[i].item, h) !! Reach(nodes, es[|a|].item, h)
        else Reach(nodes, es[|a|].item, h) !! Reach(nodes, es[i].item, h);
    }
  }

  lemma SelfIn(nodes: Nodes, es: seq<Pair>, h: nat, lo: nat, hi: nat, min: nat, i: nat)
    requires Kids(nodes, es, h, lo, hi, min) && i < |es|
    ensures es[i].item in Reach(nodes, es[i].item, h)
  {
    KidValid(nodes, es, h, lo, hi, min, i);
    NodeFacts(nodes, es[i].item, h, Low(es, i, lo), High(es, i, hi), min, false);
    SelfReached(nodes, es[i].item, h);
  }

  /** What is needed to rewrite the pairs a + [e] + b of the parent as a + [x, y] + b. */
  ghost predicate ParentReady(nodes: Nodes, nodes': Nodes, top: Spot, h: nat, min: nat, c: Change, d: nat,
                              a: seq<Pair>, e: Pair, b: seq<Pair>, x: Pair, y: Pair) {
    var ip := Down(nodes, top, c.key, d).off;
    && d < h && ip in nodes && ip in nodes' && nodes'[ip] == nodes[ip] && Entries(nodes[ip]) == a + [e] + b
    && ReadyFor(nodes, nodes', top, h, min, c, d, a + [x, y] + b) && Roomy(nodes[ip], a + [x, y] + b, d == 0)
    && OnlyItem(a + [e] + b, |a|, x.item) && Mergeable(a, x, y, b) && Ascending(a + [e] + b)
    && x.key < y.key && (b != [] ==> y.key <= e.key)
  }

  /** The pairs of the parent with a split index node. */
  lemma SplitMerges(nodes: Nodes, nodes': Nodes, top: Spot, h: nat, min: nat, c: Change, d: nat, x: Pair, r: nat,
                    a: seq<Pair>, e: Pair, b: seq<Pair>, key: nat, y: Pair)
    requires SubAt(nodes, top, h, min, true) && top.lo < c.key <= top.hi && d + 1 < h && SplitBelow(nodes, nodes', top, h, min, c, d + 1, x, r)
    requires var ip := Down(nodes, top, c.key, d).off;
      ip in nodes && Entries(nodes[ip]) == a + [e] + b && |a| == Route(Entries(nodes[ip]), c.key)
    requires var at, s := Down(nodes, top, c.key, d), Down(nodes, top, c.key, d + 1);
      key == e.key <= at.hi && s.hi == if b == [] then at.hi else e.key
    requires r in nodes' && |nodes'[r].pairs| == FANOUT && nodes'[r].num < FANOUT
    requires var last := nodes'[r].pairs[nodes'[r].num].key; y == Pair(if key > last then key else last, r)
    ensures var es, ip := a + [x, y] + b, Down(nodes, top, c.key, d).off;
      && ip in nodes' && nodes'[ip] == nodes[ip] && ReadyFor(nodes, nodes', top, h, min, c, d, es) && Roomy(nodes'[ip], es, d == 0)
      && Mergeable(a, x, y, b) && NotLater(es, a + [e] + b) && NotEarlier(es, a + [e] + b)
  {
    hide SubAt, Sub, Down, SplitBelow, Entries, ReadyFor, Roomy, Mergeable, OnlyItem, Route, NotLater, NotEarlier, Shaped;
    UpperKey(nodes, nodes', top, h, min, c, d, x, r, key);
    var a', e', b' := ParentTakes(nodes, nodes', top, h, min, c, d, x, y);
    SameParts(a, e, b, a', e', b');
    KeysNotLater(a, e, b, x, y);
    KeysNotEarlier(a, e, b, x, y);
  }

  /** No key of `es` comes later than that of `was` in the same place, the last one apart. */
  ghost predicate NotLater(es: seq<Pair>, was: seq<Pair>) {
    |es| == |was| + 1 && forall i :: 0 <= i < |was| - 1 ==> es[i].key <= was[i].key
  }

  lemma KeysNotLater(a: seq<Pair>, e: Pair, b: seq<Pair>, x: Pair, y: Pair)
    requires Mergeable(a, x, y, b) && Ascending(a + [e] + b) && x.key < y.key && (b != [] ==> y.key <= e.key)
    ensures NotLater(a + [x, y] + b, a + [e] + b)
  {
    var es, was := a + [x, y] + b, a + [e] + b;
    forall i | 0 <= i < |was| - 1 ensures es[i].key <= was[i].key {
      if i > |a| {
        assert was[i] == b[i - |a| - 1] && was[i - 1] == if i == |a| + 1 then e else b[i - |a| - 2];
        assert was[i - 1].key < was[i].key;
        assert es[i] == if i == |a| + 1 then y else b[i - |a| - 2];
      }
    }
  }

  /** Nor does it come earlier by more than one place. */
  ghost predicate NotEarlier(es: seq<Pair>, was: seq<Pair>) {
    |es| == |was| + 1 && forall i :: 0 <= i < |was| - 1 ==> was[i].key <= es[i + 1].key
  }

  lemma KeysNotEarlier(a: seq<Pair>, e: Pair, b: seq<Pair>, x: Pair, y: Pair)
    requires Mergeable(a, x, y, b) && y.key >= e.key
    ensures NotEarlier(a + [x, y] + b, a + [e] + b)
  {
    var es, was := a + [x, y] + b, a + [e] + b;
    AscendingBetween(a, x, b);
    forall i | 0 <= i < |was| - 1 ensures was[i].key <= es[i + 1].key {
      if i < |a| {
        assert was[i] == a[i] && a[i].key < x.key;
        if i + 1 < |a| {
          assert (a + b)[i].key < (a + b)[i + 1].key;
          assert es[i + 1] == a[i + 1];
        }
      } else if i > |a| {
        assert was[i] == b[i - |a| - 1] == es[i + 1];
      }
    }
  }

  /** Node `n` lies before the split at `median`, and the upper half `m` behind it. */
  ghost predicate LiesBefore(n: Node, m: Node, median: Pair) {
    && Shaped(n) && !n.leaf && Shaped(m) && !m.leaf && (forall i :: 0 <= i < |Entries(n)| ==> Entries(n)[i].item != median.item)
    && AllBefore(Entries(n), median, Pair(LastKey(m), 0))
  }

  lemma BeforeArray(n: Node, m: Node, median: Pair, newChild: nat)
    requires LiesBefore(n, m, median)
    ensures |n.pairs| == FANOUT && n.num < FANOUT && |m.pairs| == FANOUT && m.num < FANOUT
    ensures n.pairs[..n.num + 1] == Entries(n) && |Entries(n)| == n.num + 1 && m.pairs[m.num].key == LastKey(m)
    ensures forall i :: 0 <= i < n.num + 1 ==> n.pairs[i].item != median.item
    ensures AllBefore(Entries(n), median, Pair(LastKey(m), newChild))
  {
    assert forall i :: 0 <= i < |Entries(n)| ==> Entries(n)[i] == n.pairs[i];
  }

  lemma BeforeAscends(es: seq<Pair>, x: Pair, y: Pair, r: seq<Pair>)
    requires AllBefore(es, x, y) && |es| + 1 <= |r| && r == Padded(es + [y], |r|)
    ensures r[..|es| + 1] == es + [y] && Ascending(r[..|es| + 1])
  {
    PaddedPrefix(es + [y], r);
    assert forall i :: 0 <= i < |es| ==> (es + [y])[i] == es[i];
    assert es[0].key > 0;
  }

  /** The node d + 1 steps down has been halved: its parent, `d` steps down, can take it. */
  lemma ParentTakes(nodes: Nodes, nodes': Nodes, top: Spot, h: nat, min: nat, c: Change, d: nat, x: Pair, y: Pair)
      returns (a: seq<Pair>, e: Pair, b: seq<Pair>)
    requires SubAt(nodes, top, h, min, true) && top.lo < c.key <= top.hi && d < h
    requires SplitBelow(nodes, nodes', top, h, min, c, d + 1, x, y.item)
    requires var at, s := Down(nodes, top, c.key, d), Down(nodes, top, c.key, d + 1);
      x.key < y.key <= s.hi && (s.hi < at.hi ==> Sub(nodes', y.item, h - d - 1, x.key, y.key, min, false))
    ensures ParentReady(nodes, nodes', top, h, min, c, d, a, e, b, x, y)
    ensures |a| == Route(Entries(nodes[Down(nodes, top, c.key, d).off]), c.key)
  {
    hide Sub, SubAt, Halved, OnlyIn, Reach, Holds, Leaves, Entries, Kids, Within, Mergeable, OnlyItem, NewEntries, Shaped, Down,
      HoldsAll, ReachAll, LeavesAll, Below, Bound, Route;
    DownMore(nodes, top, c.key, d);
    DownIsSub(nodes, top, h, min, true, c.key, d);
    var at := Down(nodes, top, c.key, d);
    SubAtIs(nodes, at, h - d, min, d == 0);
    NodeFacts(nodes, at.off, h - d, at.lo, at.hi, min, d == 0);
    SubKids(nodes, at.off, h - d, at.lo, at.hi, min, d == 0);
    a, e, b := ParentEntries(nodes, nodes', at, h - d, min, d == 0, c, x, y);
    MergeOk(a, e, b, at.lo, at.hi, x, y);
    OnlyChild(nodes, a, e, b, h - d - 1, at.lo, at.hi, min);
    SelfReached(nodes, at.off, h - d);
    WithinIsAscending(a + [e] + b, at.lo, at.hi);
    ParentKept(nodes, nodes', top, h, min, c, d);
  }

  lemma ParentKept(nodes: Nodes, nodes': Nodes, top: Spot, h: nat, min: nat, c: Change, d: nat)
    requires SubAt(nodes, top, h, min, true) && top.lo < c.key <= top.hi && d < h
    requires OnlyIn(nodes, nodes', Reach(nodes, Down(nodes, top, c.key, d + 1).off, h - d - 1))
    ensures var ip := Down(nodes, top, c.key, d).off; ip in nodes && ip in nodes' && nodes'[ip] == nodes[ip]
  {
    hide Sub, SubAt, Reach, Holds, Leaves, Entries, Kids, Within, Shaped, Down, HoldsAll, ReachAll, LeavesAll, Below, Bound, Route;
    DownMore(nodes, top, c.key, d);
    DownIsSub(nodes, top, h, min, true, c.key, d);
    var at := Down(nodes, top, c.key, d);
    SubAtIs(nodes, at, h - d, min, d == 0);
    SubKids(nodes, at.off, h - d, at.lo, at.hi, min, d == 0);
    var a, e, b := BelowIsChild(nodes, at, h - d, min, d == 0, c.key);
    KidsParts(nodes, a, e, b, h - d - 1, at.lo, at.hi, min);
    BelowOff(nodes, at, c.key, e.item, Bound(a, at.lo), if b == [] then at.hi else e.key);
  }

  lemma BelowOff(nodes: Nodes, at: Spot, key: nat, off: nat, lo: nat, hi: nat)
    requires Below(nodes, at, key) == Spot(off, lo, hi)
    ensures Below(nodes, at, key).off == off
  {
  }

  // ------------------------------------------------------------ splitting a leaf

  ghost predicate LeafSplitDone(nodes: Nodes, nodes': Nodes, top: Spot, h: nat, min: nat, c: Change, x: Pair, y: Pair) {
    var s := Down(nodes, top, c.key, h);
    && SplitBelow(nodes, nodes', top, h, min, c, h, x, y.item) && x.key < y.key <= s.hi
    && Sub(nodes', y.item, 0, x.key, y.key, min, false)
  }

  lemma FullLeaf(n: Node)
    requires Shaped(n) && n.leaf && n.num == FANOUT && Ascending(Entries(n))
    ensures var arr := n.pairs[..n.num] + [NULL];
      |n.pairs| == FANOUT && n.pairs[..n.num] == Entries(n) == n.pairs && arr[..n.num] == Entries(n) && arr[n.num + 1..] == []
  {
  }

  lemma LeafHalves(all: seq<Pair>)
    requires |all| == FANOUT + 1
    ensures all[0..HALF] == all[..HALF] && all[HALF..HALF + HALF] == all[HALF..]
    ensures var left, right := Padded(all[..HALF], FANOUT), Padded(all[HALF..], FANOUT);
      && left[HALF - 1] == all[HALF - 1] && right[HALF - 1] == all[FANOUT]
      && LeafNode(false, all[..HALF]) == Node(false, true, HALF, left) && LeafNode(false, all[HALF..]) == Node(false, true, HALF, right)
  {
    var left, right := Padded(all[..HALF], FANOUT), Padded(all[HALF..], FANOUT);
    assert left[HALF - 1] == left[..HALF][HALF - 1];
    assert right[HALF - 1] == right[..HALF][HALF - 1];
  }

  lemma LeafSplits(nodes: Nodes, top: Spot, h: nat, min: nat, key: nat, item: nat, r: nat)
    requires SubAt(nodes, top, h, min, true) && Standing(nodes, top, h, min, key, h) && h >= 1 && min <= HALF
    requires !HasKey(Entries(nodes[Down(nodes, top, key, h).off]), key) && nodes[Down(nodes, top, key, h).off].num == FANOUT
    requires r != 0 && r !in nodes
    ensures var dp := Down(nodes, top, key, h).off; var all := Inserted(Entries(nodes[dp]), Pair(key, item));
      && |all| == FANOUT + 1
      && LeafSplitDone(nodes, nodes[dp := LeafNode(false, all[..HALF])][r := LeafNode(false, all[HALF..])], top, h, min,
                       Change(key, {Pair(key, item)}, dp, [dp, r]), Pair(all[HALF - 1].key, dp), Pair(all[FANOUT].key, r))
  {
    InsertReady(nodes, top, h, min, key, item);
    StandingNode(nodes, top, h, min, key, h);
    var at := Down(nodes, top, key, h);
    var all := Inserted(Entries(nodes[at.off]), Pair(key, item));
    hide Sub, SubAt, Standing, Down, LeafNode, Within, Pairs, Without, Entries, Halved, OnlyIn, Reach, Inserted, Holds, Leaves;
    LeafHalved(nodes, at, min, all, Change(key, {Pair(key, item)}, at.off, [at.off, r]), r);
  }

  // ------------------------------------------------------ splitting an index node

  /** Where the split child stands in its parent. */
  lemma ChildPosition(nodes: Nodes, nodes': Nodes, top: Spot, h: nat, min: nat, c: Change, d: nat, x: Pair, r: nat)
      returns (a: seq<Pair>, e: Pair, b: seq<Pair>)
    requires SubAt(nodes, top, h, min, true) && top.lo < c.key <= top.hi && d < h
    requires SplitBelow(nodes, nodes', top, h, min, c, d + 1, x, r)
    ensures var ip := Down(nodes, top, c.key, d).off;
      && ip in nodes && ip in nodes' && nodes'[ip] == nodes[ip] && Entries(nodes[ip]) == a + [e] + b
      && |a| == Route(Entries(nodes[ip]), c.key) && OnlyItem(a + [e] + b, |a|, x.item)
      && Shaped(nodes[ip]) && !nodes[ip].leaf && |a + [e] + b| == Width(nodes[ip])
    ensures var at, s := Down(nodes, top, c.key, d), Down(nodes, top, c.key, d + 1);
      s.hi == (if b == [] then at.hi else e.key) && e.key <= at.hi
  {
    hide Sub, SubAt, Halved, OnlyIn, Reach, Holds, Leaves, Entries, Kids, Within, OnlyItem, Shaped, Down,
      HoldsAll, ReachAll, LeavesAll, Below, Bound, Route;
    DownMore(nodes, top, c.key, d);
    DownIsSub(nodes, top, h, min, true, c.key, d);
    var at := Down(nodes, top, c.key, d);
    SubAtIs(nodes, at, h - d, min, d == 0);
    NodeFacts(nodes, at.off, h - d, at.lo, at.hi, min, d == 0);
    SubKids(nodes, at.off, h - d, at.lo, at.hi, min, d == 0);
    a, e, b := BelowIsChild(nodes, at, h - d, min, d == 0, c.key);
    OnlyChild(nodes, a, e, b, h - d - 1, at.lo, at.hi, min);
    WithinParts(a, e, b, at.lo, at.hi);
    ParentKept(nodes, nodes', top, h, min, c, d);
  }

  /** The key a parent keeps for the upper half of a split index node. */
  lemma UpperKey(nodes: Nodes, nodes': Nodes, top: Spot, h: nat, min: nat, c: Change, d: nat, x: Pair, r: nat, key: nat)
    requires d + 1 < h && SplitBelow(nodes, nodes', top, h, min, c, d + 1, x, r)
    requires var at, s := Down(nodes, top, c.key, d), Down(nodes, top, c.key, d + 1);
      key <= s.hi <= at.hi && (s.hi < at.hi ==> key == s.hi)
    ensures r in nodes' && |nodes'[r].pairs| == FANOUT && nodes'[r].num < FANOUT
    ensures var at, s := Down(nodes, top, c.key, d), Down(nodes, top, c.key, d + 1);
      var last := nodes'[r].pairs[nodes'[r].num].key; var y := if key > last then key else last;
      x.key < y <= s.hi && (s.hi < at.hi ==> Sub(nodes', r, h - d - 1, x.key, y, min, false))
  {
    hide Sub, OnlyIn, Reach, Holds, Leaves, Kids, Within, Down, HoldsAll, ReachAll, LeavesAll, Below, Bound, Route;
    var s := Down(nodes, top, c.key, d + 1);
    NodeFacts(nodes', r, h - d - 1, x.key, s.hi, min, false);
    SubKids(nodes', r, h - d - 1, x.key, s.hi, min, false);
    var n := nodes'[r];
    WithinAt(Entries(n), n.num, x.key, s.hi);
  }

  // ----------------------------------------------------------- arrays of a parent

  lemma ParentArray(n: Node, a: seq<Pair>, e: Pair, b: seq<Pair>)
    requires Shaped(n) && !n.leaf && Entries(n) == a + [e] + b && |a + [e] + b| == Width(n)
    ensures |n.pairs| == FANOUT && n.num + 1 == |a| + 1 + |b| <= FANOUT && n.pairs[..n.num + 1] == a + [e] + b && n.pairs[|a|] == e
    ensures Others(a + [e] + b, |a|) == a + b
  {
    assert (a + [e] + b)[|a|] == e && n.pairs[..n.num + 1][|a|] == n.pairs[|a|];
    assert (a + [e] + b)[..|a|] == a && (a + [e] + b)[|a| + 1..] == b;
  }

  lemma PaddedPrefix(s: seq<Pair>, r: seq<Pair>)
    requires |s| <= |r| && r == Padded(s, |r|)
    ensures r[..|s|] == s
  {
  }

  lemma SameParts(a: seq<Pair>, e: Pair, b: seq<Pair>, a': seq<Pair>, e': Pair, b': seq<Pair>)
    requires a + [e] + b == a' + [e'] + b' && |a| == |a'|
    ensures a == a' && e == e' && b == b'
  {
    var s, t := a + [e] + b, a' + [e'] + b';
    assert s[..|a|] == a && t[..|a|] == a';
    assert s[|a|] == e && t[|a|] == e';
    assert s[|a| + 1..] == b && t[|a| + 1..] == b';
  }

  lemma MergedAscends(a: seq<Pair>, x: Pair, y: Pair, b: seq<Pair>, r: seq<Pair>)
    requires Mergeable(a, x, y, b) && |a + [x, y] + b| <= |r| && r == Padded(a + [x, y] + b, |r|)
    ensures Ascending(r[..|a + [x, y] + b|])
  {
    hide Ascending, Padded;
    AscendingBetween(a, x, b);
    assert a + [x] + b == (a + [x]) + b;
    assert y.key > 0 by { AboveZero(a, x, y, b); }
    AscendingBetween(a + [x], y, b);
    assert (a + [x]) + [y] + b == a + [x, y] + b;
    PaddedPrefix(a + [x, y] + b, r);
  }

  lemma AboveZero(a: seq<Pair>, x: Pair, y: Pair, b: seq<Pair>)
    requires Between(a + [x], y.key, b)
    ensures y.key > 0
  {
    assert (a + [x])[|a|] == x;
  }

  // ------------------------------------------------------------- the whole tree

  /** The tree below `top'` is the tree below `top` with the change `c` made. */
  ghost predicate WholeTree(nodes: Nodes, top: Spot, h: nat, nodes': Nodes, top': Spot, h': nat, min: nat, c: Change) {
    && SubAt(nodes', top', h', min, true)
    && Holds(nodes', top'.off, h') == Without(Holds(nodes, top.off, h), c.key) + c.add
    && Spliced(Leaves(nodes, top.off, h), Leaves(nodes', top'.off, h'), c)
  }

  lemma SettledWhole(nodes: Nodes, nodes': Nodes, top: Spot, h: nat, min: nat, c: Change, d: nat)
    requires SubAt(nodes, top, h, min, true) && top.lo < c.key <= top.hi && Settled(nodes, nodes', top, h, min, c, d)
    ensures WholeTree(nodes, top, h, nodes', top, h, min, c)
  {
    hide SubAt, OnlyIn, Down, Spliced, Reach;
    Lift(nodes, nodes', top, h, min, true, c, d);
  }

  /** What the two halves of a root look like. */
  lemma TwoHalves(nodes: Nodes, nodes': Nodes, top: Spot, h: nat, min: nat, c: Change, median: Pair, r: nat)
    requires h >= 1 && SplitBelow(nodes, nodes', top, h, min, c, 0, median, r)
    ensures top.off in nodes' && r in nodes'
    ensures var n, m := nodes'[top.off], nodes'[r];
      && 1 <= n.num < |n.pairs| && 1 <= m.num < |m.pairs|
      && n.pairs[n.num - 1].key <= median.key < m.pairs[m.num - 1].key <= top.hi
  {
    hide Sub, OnlyIn, Reach, Holds, Leaves, Kids, Within, HoldsAll, ReachAll, LeavesAll, Spliced;
    assert Down(nodes, top, c.key, 0) == top;
    NodeFacts(nodes', r, h, median.key, top.hi, min, false);
    SubKids(nodes', r, h, median.key, top.hi, min, false);
    NodeFacts(nodes', top.off, h, top.lo, median.key, min, false);
    SubKids(nodes', top.off, h, top.lo, median.key, min, false);
    var n, m := nodes'[top.off], nodes'[r];
    WithinAt(Entries(n), n.num - 1, top.lo, median.key);
    WithinAt(Entries(m), m.num - 1, median.key, top.hi);
  }

  lemma TwoPairs(root: bool, x: Pair, y: Pair)
    ensures IndexNode(root, [x, y]) == Node(root, false, 1, Padded([x, y], FANOUT))
  {
  }

  lemma RootSplits(nodes: Nodes, nodes': Nodes, top: Spot, h: nat, min: nat, c: Change, median: Pair, r: nat, key: nat, off: nat)
    requires SplitBelow(nodes, nodes', top, h, min, c, 0, median, r) && top.lo == 0 && top.hi == MAX_KEY
    requires median.key < key <= MAX_KEY && off != 0 && off !in nodes'
    ensures WholeTree(nodes, top, h, nodes'[off := IndexNode(true, [Pair(median.key, top.off), Pair(key, r)])], Spot(off, 0, MAX_KEY), h + 1, min, c)
  {
    hide Sub, OnlyIn, Reach, Holds, Leaves, Kids, Within, HoldsAll, ReachAll, LeavesAll, Spliced, IndexNode, Without;
    assert Down(nodes, top, c.key, 0) == top;
    var x, y := Pair(median.key, top.off), Pair(key, r);
    var nodes2 := nodes'[off := IndexNode(true, [x, y])];
    OffNotReached(nodes', off, top.off, h);
    OffNotReached(nodes', off, r, h);
    Frame(nodes', nodes2, top.off, h, 0, median.key, min, false);
    Frame(nodes', nodes2, r, h, median.key, MAX_KEY, min, false);
    NewRoot(nodes2, off, x, y, h, min);
  }

  lemma OffNotReached(nodes: Nodes, off: nat, at: nat, h: nat)
    requires off !in nodes
    ensures off !in Reach(nodes, at, h) && SameOn(nodes, nodes, Reach(nodes, at, h))
  {
    hide Reach;
    if off in Reach(nodes, at, h) { ReachExists(nodes, at, h, off); }
  }

  // ------------------------------------------------------------ a full root leaf

  lemma RootLeaf(nodes: Nodes, top: Spot, min: nat)
    requires SubAt(nodes, top, 0, min, true)
    ensures top.off in nodes && top.off != 0 && Shaped(nodes[top.off]) && nodes[top.off].leaf && Ascending(Entries(nodes[top.off]))
  {
  }

  lemma RootOnPath(nodes: Nodes, top: Spot, key: nat)
    ensures Down(nodes, top, key, 0) == top
  {
  }

  lemma LeafBounds(n: Node)
    requires Shaped(n) && n.leaf
    ensures n.num <= FANOUT == |n.pairs| && |Entries(n)| == n.num
  {
  }

  lemma RootLeafSplits(nodes: Nodes, top: Spot, min: nat, key: nat, item: nat, l: nat, r: nat)
    requires SubAt(nodes, top, 0, min, true) && top.lo == 0 && top.hi == MAX_KEY && 0 < key <= MAX_KEY && min <= HALF
    requires top.off in nodes && !HasKey(Entries(nodes[top.off]), key) && nodes[top.off].num == FANOUT
    requires l != 0 && r != 0 && l != r && l !in nodes && r !in nodes
    ensures var all := Inserted(Entries(nodes[top.off]), Pair(key, item));
      && |all| == FANOUT + 1
      && var x, y := Pair(all[HALF - 1].key, l), Pair(all[FANOUT].key, r);
         var nodes' := nodes[l := LeafNode(false, all[..HALF])][r := LeafNode(false, all[HALF..])][top.off := IndexNode(true, [x, y])];
         SubAt(nodes', top, 1, min, true) && Leaves(nodes', top.off, 1) == [l, r] &&
         Holds(nodes', top.off, 1) == Without(Holds(nodes, top.off, 0), key) + {Pair(key, item)}
  {
    hide Sub, LeafNode, Within, Pairs, Without, Entries, Reach, Inserted, Holds, Leaves, HasKey, IndexNode, Shaped;
    var es := Entries(nodes[top.off]);
    var all := Inserted(es, Pair(key, item));
    SubKids(nodes, top.off, 0, top.lo, top.hi, min, true);
    NodeFacts(nodes, top.off, 0, top.lo, top.hi, min, true);
    HoldsLeaf(nodes, top, min, true);
    PairsInserted(es, Pair(key, item), 0, MAX_KEY);
    HalfPairs(all, 0, MAX_KEY);
    var x, y := Pair(all[HALF - 1].key, l), Pair(all[FANOUT].key, r);
    var nodes' := nodes[l := LeafNode(false, all[..HALF])][r := LeafNode(false, all[HALF..])][top.off := IndexNode(true, [x, y])];
    LeafValid(nodes', l, false, all[..HALF], 0, x.key, min);
    LeafValid(nodes', r, false, all[HALF..], x.key, MAX_KEY, min);
    NewRoot(nodes', top.off, x, y, 0, min);
  }

  lemma PairLinked(next: Links, prev: Links, l: nat, r: nat)
    requires l != 0 && r != 0 && l != r && Get(next, l) == 0 && Get(prev, l) == 0
    ensures Linked(NextAfter(next, l, r), PrevAfter(next, prev, l, r), [l, r])
  {
    var none: seq<nat> := [];
    assert none + [l] + none == [l] && none + [l, r] + none == [l, r];
    LinkedAfter(next, prev, none, l, none, r);
  }

  // --------------------------------------------------------------- the leaf chain

  lemma ChainGrows(nodes: Nodes, top: Spot, h: nat, nodes': Nodes, top': Spot, h': nat, min: nat, c: Change, next: Links, prev: Links, r: nat)
    requires SubAt(nodes, top, h, min, true) && WholeTree(nodes, top, h, nodes', top', h', min, c)
    requires Linked(next, prev, Leaves(nodes, top.off, h)) && c.mid == [c.dp, r] && r != 0 && r !in nodes
    ensures Linked(NextAfter(next, c.dp, r), PrevAfter(next, prev, c.dp, r), Leaves(nodes', top'.off, h'))
    ensures SubAt(nodes', top', h', min, true)
    ensures Holds(nodes', top'.off, h') == Without(Holds(nodes, top.off, h), c.key) + c.add
  {
    hide Sub, SubAt, Linked, Leaves, NextAfter, PrevAfter, Holds, Reach, Distinct, Without;
    SubAtIs(nodes, top, h, min, true);
    LeavesDistinct(nodes, top.off, h, top.lo, top.hi, min, true);
    var was, now := Leaves(nodes, top.off, h), Leaves(nodes', top'.off, h');
    var x, y :| SplicedAt(was, now, c, x, y);
    if r in was {
      LeafReached(nodes, top.off, h, r);
      ReachExists(nodes, top.off, h, r);
    }
    LinkedAfter(next, prev, x, c.dp, y, r);
  }
}
