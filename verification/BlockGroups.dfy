/** Block groups: one bitmap and one descriptor per group, with free-block counters
    kept both in the descriptors and in the superblock
    (nvfuse_core.c, nvfuse_indirect.c and nvfuse_mkfs.c).

    Block number b belongs to group b / BLOCKS_PER_GROUP; the bitmaps of all groups
    are laid end to end, so that bit b is the bit of block b.
 */
module BlockGroups {
  import opened Sequences

  const BLOCKS_PER_GROUP: nat := 32768   // NVFUSE_DATA_PER_BG
  const INODES_PER_GROUP: nat := 4096    // NVFUSE_INODE_PER_BG
  const DATA_OFFSET: nat := 4100         // super, descriptor, two bitmaps, 4096 inode blocks

  const CLUSTER_SIZE: nat := 4096
  const INODE_ENTRY_SIZE: nat := 4096

  const BD_OFFSET: nat := 1
  const IBITMAP_OFFSET: nat := 2
  const IBITMAP_SIZE: nat := 1
  const DBITMAP_OFFSET: nat := IBITMAP_OFFSET + IBITMAP_SIZE
  const DBITMAP_SIZE: nat := 1

  /** The layout fields of a block group descriptor. */
  datatype Descriptor = Descriptor(bgStart: nat, bdStart: nat, ibitmapStart: nat, ibitmapSize: nat, dbitmapStart: nat, dbitmapSize: nat,
                                   itableStart: nat, itableSize: nat, dtableStart: nat, dtableSize: nat,
                                   maxInodes: nat, maxBlocks: nat, freeBlocks: nat)

  /** nvfuse_make_bg_descriptor: behind the first block of the group come the descriptor, the inode
      bitmap, the data bitmap, the inode table and the data blocks, up to the end of the group. */
  function MakeDescriptor(bgStart: nat, bgSize: nat): (bd: Descriptor)
    requires bgSize == BLOCKS_PER_GROUP
    ensures bd.bgStart == bgStart && bd.bdStart == bgStart + 1 && bd.ibitmapStart == bd.bdStart + 1
    ensures bd.ibitmapSize == 1 && bd.dbitmapStart == bd.ibitmapStart + bd.ibitmapSize
    ensures bd.dbitmapSize == 1 && bd.itableStart == bd.dbitmapStart + bd.dbitmapSize
    ensures bd.itableSize == bd.maxInodes == 4096 && bd.dtableStart == bd.itableStart + bd.itableSize == bgStart + DATA_OFFSET
    ensures bd.dtableStart + bd.dtableSize == bgStart + bgSize && bd.maxBlocks == bgSize == 32768
    ensures bd.freeBlocks == bd.dtableSize == BLOCKS_PER_GROUP - DATA_OFFSET
  {
    var itable := DBITMAP_OFFSET + DBITMAP_SIZE;
    var itableSize := INODES_PER_GROUP * INODE_ENTRY_SIZE / CLUSTER_SIZE;
    var dtable := itable + itableSize;
    Descriptor(bgStart, bgStart + BD_OFFSET, bgStart + IBITMAP_OFFSET, DBITMAP_SIZE, bgStart + DBITMAP_OFFSET, DBITMAP_SIZE,
               bgStart + itable, itableSize, bgStart + dtable, bgSize - dtable,
               INODES_PER_GROUP, BLOCKS_PER_GROUP, BLOCKS_PER_GROUP - dtable)
  }

  /** What a block of a group is for. */
  datatype Use = Super | BlockDescriptor | InodeBitmap | DataBitmap | InodeTable(k: nat) | Data(d: nat)

  ghost predicate UsedFor(bd: Descriptor, b: nat, use: Use) {
    match use
    case Super => b == bd.bgStart
    case BlockDescriptor => b == bd.bdStart
    case InodeBitmap => b == bd.ibitmapStart
    case DataBitmap => b == bd.dbitmapStart
    case InodeTable(k) => k < bd.maxInodes && b == bd.itableStart + k
    case Data(d) => d < bd.dtableSize && b == bd.dtableStart + d
  }

  /** Every block of a group has exactly one use, and no use lies outside the group: no two bitmaps, inodes
      or data blocks share a block. */
  lemma OneUse(bgStart: nat, b: nat) returns (use: Use)
    requires bgStart <= b < bgStart + BLOCKS_PER_GROUP
    ensures var bd := MakeDescriptor(bgStart, BLOCKS_PER_GROUP);
      && UsedFor(bd, b, use) && (forall u :: UsedFor(bd, b, u) ==> u == use)
      && (forall c: nat, u :: UsedFor(bd, c, u) ==> bgStart <= c < bgStart + BLOCKS_PER_GROUP)
      && (use.Data? <==> b - bgStart >= 4100)
  {
    var bd := MakeDescriptor(bgStart, BLOCKS_PER_GROUP);
    use := if b == bd.bgStart then Super
           else if b == bd.bdStart then BlockDescriptor
           else if b == bd.ibitmapStart then InodeBitmap
           else if b == bd.dbitmapStart then DataBitmap
           else if b < bd.dtableStart then InodeTable(b - bd.itableStart)
           else Data(b - bd.dtableStart);
  }

  // ------------------------------------------------------- counting clear bits

  /** The number of clear bits in bits[lo..hi]. */
  ghost function Clear(bits: seq<bool>, lo: int, hi: int): (n: nat)
    requires 0 <= lo <= hi <= |bits|
    ensures n <= hi - lo
    decreases hi
  {
    if lo == hi then 0 else Clear(bits, lo, hi - 1) + if bits[hi - 1] then 0 else 1
  }

  /** It is the size of a set. */
  lemma {:induction false} ClearCounts(bits: seq<bool>, lo: int, hi: int)
    requires 0 <= lo <= hi <= |bits|
    ensures Clear(bits, lo, hi) == |set i: int | lo <= i < hi && !bits[i]|
    decreases hi
  {
    var s := set i: int | lo <= i < hi && !bits[i];
    if lo < hi {
      ClearCounts(bits, lo, hi - 1);
      var less := set i: int | lo <= i < hi - 1 && !bits[i];
      assert s == if bits[hi - 1] then less else less + {hi - 1};
    } else {
      assert s == {};
    }
  }

  lemma {:induction false} ClearFrame(s: seq<bool>, t: seq<bool>, lo: int, hi: int)
    requires 0 <= lo <= hi <= |s| == |t|
    requires forall i :: lo <= i < hi ==> s[i] == t[i]
    ensures Clear(s, lo, hi) == Clear(t, lo, hi)
    decreases hi
  {
    if lo < hi { ClearFrame(s, t, lo, hi - 1); }
  }

  lemma {:induction false} ClearSet(s: seq<bool>, lo: int, hi: int, i: int)
    requires 0 <= lo <= i < hi <= |s| && !s[i]
    ensures Clear(s[i := true], lo, hi) == Clear(s, lo, hi) - 1
    decreases hi
  {
    if i == hi - 1 { ClearFrame(s, s[i := true], lo, hi - 1); } else { ClearSet(s, lo, hi - 1, i); }
  }

  lemma {:induction false} ClearNone(s: seq<bool>, lo: int, hi: int)
    requires 0 <= lo <= hi <= |s|
    ensures Clear(s, lo, hi) == 0 <==> forall i :: lo <= i < hi ==> s[i]
    decreases hi
  {
    if lo < hi { ClearNone(s, lo, hi - 1); }
  }

  lemma {:induction false} ClearAll(s: seq<bool>, lo: int, mid: int, hi: int)
    requires 0 <= lo <= mid <= hi <= |s|
    requires forall i :: lo <= i < mid ==> s[i]
    requires forall i :: mid <= i < hi ==> !s[i]
    ensures Clear(s, lo, hi) == hi - mid
    decreases hi
  {
    if lo == hi {
    } else if mid == hi {
      ClearNone(s, lo, hi);
    } else {
      ClearAll(s, lo, mid, hi - 1);
    }
  }

  // ------------------------------------------------------------------- sums

  ghost function Sum(s: seq<int>): int {
    if s == [] then 0 else Sum(s[..|s| - 1]) + s[|s| - 1]
  }

  lemma {:induction false} SumUpdate(s: seq<int>, i: int, v: int)
    requires 0 <= i < |s|
    ensures Sum(s[i := v]) == Sum(s) - s[i] + v
  {
    var n := |s| - 1;
    if i == n {
      assert s[i := v][..n] == s[..n];
    } else {
      SumUpdate(s[..n], i, v);
      assert s[i := v][..n] == s[..n][i := v];
    }
  }

  lemma {:induction false} SumZero(s: seq<int>)
    requires forall i :: 0 <= i < |s| ==> s[i] >= 0
    ensures Sum(s) >= 0 && (Sum(s) == 0 <==> forall i :: 0 <= i < |s| ==> s[i] == 0)
  {
    if s != [] {
      SumZero(s[..|s| - 1]);
      assert forall i :: 0 <= i < |s| - 1 ==> s[..|s| - 1][i] == s[i];
    }
  }

  // ------------------------------------------------------------- the allocator

  function Min(a: int, b: int): int {
    if a < b then a else b
  }

  /** The number of free blocks of group `g`. */
  ghost function GroupClear(bits: seq<bool>, g: nat): nat
    requires (g + 1) * BLOCKS_PER_GROUP <= |bits|
  {
    Clear(bits, g * BLOCKS_PER_GROUP, (g + 1) * BLOCKS_PER_GROUP)
  }

  lemma GroupUnset(bits: seq<bool>, g: nat, b: nat)
    requires (g + 1) * BLOCKS_PER_GROUP <= |bits| && b / BLOCKS_PER_GROUP == g && bits[b]
    ensures GroupClear(bits[b := false], g) == GroupClear(bits, g) + 1
  {
    ClearSet(bits[b := false], g * BLOCKS_PER_GROUP, (g + 1) * BLOCKS_PER_GROUP, b);
    assert bits[b := false][b := true] == bits;
  }

  lemma GroupFull(bits: seq<bool>, g: nat)
    requires (g + 1) * BLOCKS_PER_GROUP <= |bits|
    ensures GroupClear(bits, g) == 0 <==>
      forall b :: g * BLOCKS_PER_GROUP <= b < (g + 1) * BLOCKS_PER_GROUP ==> bits[b]
  {
    ClearNone(bits, g * BLOCKS_PER_GROUP, (g + 1) * BLOCKS_PER_GROUP);
  }

  predicate IsData(b: int) {
    0 <= b && b % BLOCKS_PER_GROUP >= DATA_OFFSET
  }

  /** Blocks `blks` are distinct data blocks, clear in `was` and set in `now`, which
      is otherwise the same. */
  ghost predicate Taken(was: seq<bool>, now: seq<bool>, blks: seq<nat>) {
    && |was| == |now| && NoDuplicates(blks)
    && (forall b :: b in blks ==> b < |was| && !was[b] && IsData(b))
    && forall b :: 0 <= b < |now| ==> now[b] == (was[b] || b in blks)
  }

  lemma DataFrom(g: nat, position: nat)
    requires position < BLOCKS_PER_GROUP
    ensures IsData(g * BLOCKS_PER_GROUP + position) <==> position >= DATA_OFFSET
  {
  }

  lemma OneMoreTaken(was: seq<bool>, now: seq<bool>, blks: seq<nat>, b: nat)
    requires Taken(was, now, blks) && b < |now| && !now[b] && IsData(b)
    ensures Taken(was, now[b := true], blks + [b])
  {
    var more := blks + [b];
    assert forall x :: x in more <==> x in blks || x == b;
  }

  lemma NothingTaken(was: seq<bool>)
    ensures Taken(was, was, [])
  {
  }

  lemma TakenMore(was: seq<bool>, mid: seq<bool>, now: seq<bool>, blks: seq<nat>, more: seq<nat>)
    requires Taken(was, mid, blks) && Taken(mid, now, more)
    ensures Taken(was, now, blks + more)
  {
    var all := blks + more;
    assert forall b :: b in all <==> b in blks || b in more;
    forall i, j | 0 <= i < j < |all| ensures all[i] != all[j] {
      if i < |blks| <= j {
        assert all[i] in blks && all[j] in more;
        assert mid[all[i]] && !mid[all[j]];
      }
    }
  }

  lemma OtherGroups(s: seq<bool>, t: seq<bool>, g: nat, h: nat)
    requires |s| == |t| && g != h && (h + 1) * BLOCKS_PER_GROUP <= |s|
    requires forall b :: 0 <= b < |s| && s[b] != t[b] ==> b / BLOCKS_PER_GROUP == g
    ensures GroupClear(s, h) == GroupClear(t, h)
  {
    ClearFrame(s, t, h * BLOCKS_PER_GROUP, (h + 1) * BLOCKS_PER_GROUP);
  }

  /** The counters after the bits of one group, and its counter, have changed. */
  lemma CountersFollow(was: seq<bool>, now: seq<bool>, wasFree: seq<int>, nowFree: seq<int>, g: nat, change: int)
    requires |was| == |now| == |wasFree| * BLOCKS_PER_GROUP && g < |wasFree|
    requires forall b :: 0 <= b < |was| && was[b] != now[b] ==> b / BLOCKS_PER_GROUP == g
    requires forall h :: 0 <= h < |wasFree| ==> wasFree[h] == GroupClear(was, h)
    requires nowFree == wasFree[g := wasFree[g] + change] && GroupClear(now, g) == GroupClear(was, g) + change
    ensures forall h :: 0 <= h < |nowFree| ==> nowFree[h] == GroupClear(now, h)
    ensures Sum(nowFree) == Sum(wasFree) + change
  {
    hide GroupClear, Sum;
    SumUpdate(wasFree, g, wasFree[g] + change);
    forall h | 0 <= h < |nowFree| ensures nowFree[h] == GroupClear(now, h) {
      if h != g { OtherGroups(was, now, g, h); }
    }
  }

  lemma RootBlockTaken(was: seq<bool>)
    requires |was| >= BLOCKS_PER_GROUP && !was[DATA_OFFSET]
    ensures GroupClear(was[DATA_OFFSET := true], 0) == GroupClear(was, 0) - 1
  {
    ClearSet(was, 0, BLOCKS_PER_GROUP, DATA_OFFSET);
  }

  lemma OneBit(was: seq<bool>, x: nat, g: nat)
    requires x < |was| && x / BLOCKS_PER_GROUP == g
    ensures forall b :: 0 <= b < |was| && was[b] != was[x := true][b] ==> b / BLOCKS_PER_GROUP == g
  {
  }

  lemma OnlyMetadataTaken(bits: seq<bool>, g: nat)
    requires (g + 1) * BLOCKS_PER_GROUP <= |bits| && forall b :: 0 <= b < |bits| ==> bits[b] == !IsData(b)
    ensures GroupClear(bits, g) == BLOCKS_PER_GROUP - DATA_OFFSET
  {
    var lo := g * BLOCKS_PER_GROUP;
    ClearAll(bits, lo, lo + DATA_OFFSET, lo + BLOCKS_PER_GROUP);
  }

  /** All these blocks belong to group `g`. */
  ghost predicate AllIn(blks: seq<nat>, g: nat) {
    forall i :: 0 <= i < |blks| ==> blks[i] / BLOCKS_PER_GROUP == g
  }

  lemma TakenIn(was: seq<bool>, now: seq<bool>, blks: seq<nat>, g: nat)
    requires Taken(was, now, blks) && forall b :: 0 <= b < |now| && now[b] != was[b] ==> b / BLOCKS_PER_GROUP == g
    ensures AllIn(blks, g)
  {
    forall i | 0 <= i < |blks| ensures blks[i] / BLOCKS_PER_GROUP == g {
      assert blks[i] in blks;
    }
  }

  /** How many groups after group `first` comes group `g`, going round. */
  function Rounds(first: nat, g: int, groups: nat): int {
    if g >= first then g - first else g + groups - first
  }

  /** Going on from group `first`, group `g` is met at distance Rounds(first, g, groups), and no other is. */
  lemma RoundsIs(first: nat, g: nat, groups: nat, r: nat)
    requires first < groups && g < groups && r < groups
    ensures Rounds(first, g, groups) == r <==> first + r == g || first + r == g + groups
  {
  }

  /** The blocks come from the groups in cyclic order from `first` on, none of them from the groups at or
      behind distance `k`. */
  ghost predicate InOrder(blks: seq<nat>, first: nat, groups: nat, k: int) {
    && (forall i :: 0 <= i < |blks| ==> Rounds(first, blks[i] / BLOCKS_PER_GROUP, groups) < k)
    && forall i, j :: 0 <= i < j < |blks| ==>
         Rounds(first, blks[i] / BLOCKS_PER_GROUP, groups) <= Rounds(first, blks[j] / BLOCKS_PER_GROUP, groups)
  }

  /** The groups at distances below `k` have no free blocks. */
  ghost predicate Exhausted(free: seq<int>, first: nat, groups: nat, k: int) {
    forall g :: 0 <= g < |free| && Rounds(first, g, groups) < k ==> free[g] == 0
  }

  /** Which inode got blocks last, and from which group. */
  datatype Hint = Hint(ino: int, group: nat)

  /** The hint names the inode, and the group that its last block came from. */
  ghost predicate Hinted(blks: seq<nat>, ino: nat, was: Hint, now: Hint) {
    now == if blks != [] then Hint(ino, blks[|blks| - 1] / BLOCKS_PER_GROUP) else was
  }

  /** The round robin after `k` groups; the last of them is exhausted too when `full`. */
  ghost predicate Robin(blks: seq<nat>, free: seq<int>, first: nat, k: nat, full: bool, ino: nat, was: Hint, now: Hint) {
    && InOrder(blks, first, |free|, k) && Exhausted(free, first, |free|, if full then k else k - 1)
    && Hinted(blks, ino, was, now)
  }

  lemma RobinStarts(free: seq<int>, first: nat, ino: nat, hint: Hint)
    requires first < |free|
    ensures Robin([], free, first, 0, true, ino, hint, hint)
  {
  }

  /** The group at distance `k`. */
  function Cyclic(first: nat, k: nat, groups: nat): int {
    if k == groups then first else if first + k < groups then first + k else first + k - groups
  }

  lemma CyclicStarts(first: nat, groups: nat)
    requires first < groups
    ensures Cyclic(first, 0, groups) == first
  {
  }

  lemma NextCyclic(first: nat, k: nat, groups: nat)
    requires first < groups && k < groups
    ensures var g := Cyclic(first, k, groups);
      && 0 <= g < groups && (g + 1) % groups == Cyclic(first, k + 1, groups) && (Cyclic(first, k + 1, groups) == first <==> k + 1 == groups)
  {
    NextGroup(Cyclic(first, k, groups), groups);
  }

  lemma RobinRound(blks: seq<nat>, free: seq<int>, first: nat, k: nat, ino: nat, hint: Hint, hint0: Hint,
                   blks': seq<nat>, free': seq<int>, hint': Hint)
    requires Robin(blks, free, first, k, true, ino, hint, hint0) && first < |free| == |free'| && k < |free|
    requires var g := Cyclic(first, k, |free|);
      && blks <= blks' && AllIn(blks'[|blks|..], g) && free' == free[g := free'[g]]
      && hint' == if |blks'| > |blks| then Hint(ino, g) else hint0
    ensures Robin(blks', free', first, k + 1, free'[Cyclic(first, k, |free|)] == 0, ino, hint, hint')
  {
    var n, g := |blks|, Cyclic(first, k, |free|);
    forall i | n <= i < |blks'| ensures blks'[i] / BLOCKS_PER_GROUP == g {
      assert blks'[n..][i - n] == blks'[i];
    }
    assert forall i :: 0 <= i < n ==> blks'[i] == blks[i];
    assert Rounds(first, g, |free|) == k;
    assert |blks'| == n ==> blks' == blks;
  }

  ghost predicate NoneLeft(free: seq<int>) {
    forall g :: 0 <= g < |free| ==> free[g] == 0
  }

  lemma RobinAtMost(blks: seq<nat>, free: seq<int>, first: nat, k: nat, full: bool, less: bool, ino: nat, was: Hint, now: Hint)
    requires Robin(blks, free, first, k, full, ino, was, now) && (less ==> full)
    ensures Robin(blks, free, first, k, less, ino, was, now)
  {
  }

  lemma RobinEnds(blks: seq<nat>, free: seq<int>, first: nat, k: nat, full: bool, ino: nat, was: Hint, now: Hint)
    requires first < |free| && Robin(blks, free, first, k, full, ino, was, now)
    ensures Robin(blks, free, first, k, false, ino, was, now)
    ensures full && k == |free| ==> NoneLeft(free)
  {
  }

  lemma RobinIs(blks: seq<nat>, free: seq<int>, first: nat, k: nat, ino: nat, was: Hint, now: Hint)
    requires Robin(blks, free, first, k, false, ino, was, now)
    ensures forall i, j :: 0 <= i < j < |blks| ==>
      Rounds(first, blks[i] / BLOCKS_PER_GROUP, |free|) <= Rounds(first, blks[j] / BLOCKS_PER_GROUP, |free|)
    ensures forall i, g :: 0 <= i < |blks| && 0 <= g < |free| ==>
      (Rounds(first, g, |free|) < Rounds(first, blks[i] / BLOCKS_PER_GROUP, |free|) ==> free[g] == 0)
    ensures now == if blks != [] then Hint(ino, blks[|blks| - 1] / BLOCKS_PER_GROUP) else was
  {
  }

  lemma StillMetadata(was: seq<bool>, now: seq<bool>, blks: seq<nat>)
    requires Taken(was, now, blks)
    ensures |was| == |now| && forall b :: 0 <= b < |now| && was[b] ==> now[b]
  {
  }

  /** Blocks of a run that does not leave group `g`. */
  lemma InsideGroup(g: nat, offset: nat, count: nat, b: int)
    requires offset + count <= BLOCKS_PER_GROUP && 0 <= b - g * BLOCKS_PER_GROUP - offset < count
    ensures b / BLOCKS_PER_GROUP == g
  {
  }

  lemma NextGroup(g: nat, groups: nat)
    requires g < groups
    ensures (g + 1) % groups == if g + 1 == groups then 0 else g + 1
  {
  }

  class Superblock {
    const groups: nat              // sb_bg_num
    const bits: array<bool>        // data bitmaps
    const groupFree: array<int>    // bd_free_blocks
    const nextBlock: array<nat>    // bd_next_block
    var freeBlocks: int            // sb_free_blocks
    var usedBlocks: int            // sb_no_of_used_blocks
    var lastGroup: nat             // sb_last_allocated_bgid
    var lastIno: int               // sb_last_allocated_bgid_by_ino

    ghost function Footprint(): set<object> {
      {this, bits, groupFree, nextBlock}
    }

    ghost predicate Shaped()
      reads this
    {
      && bits.Length == groups * BLOCKS_PER_GROUP && groupFree.Length == groups && nextBlock.Length == groups
      && lastGroup < groups
    }

    /** The counters agree with the bitmaps. */
    ghost predicate Counted()
      reads Footprint()
    {
      && Shaped()
      && (forall g :: 0 <= g < groups ==> groupFree[g] == GroupClear(bits[..], g))
      && freeBlocks == Sum(groupFree[..])
    }

    /** Moreover, metadata blocks are never free, and free and used blocks add up to the
        data blocks of the volume less the root directory's. */
    ghost predicate Valid()
      reads Footprint()
    {
      && Counted() && (forall b :: 0 <= b < bits.Length && !IsData(b) ==> bits[b])
      && freeBlocks + usedBlocks == groups * (BLOCKS_PER_GROUP - DATA_OFFSET) - 1
    }

    // --------------------------------------------------------------- formatting

    /** nvfuse_format: descriptors and bitmaps of all groups, then the root inode's
        data block is taken directly from group 0. */
    constructor Format(groups: nat)
      requires groups >= 1
      ensures this.groups == groups && Valid()
      ensures fresh(bits) && fresh(groupFree) && fresh(nextBlock)
      ensures forall b :: 0 <= b < bits.Length ==> bits[b] == (!IsData(b) || b == DATA_OFFSET)
      ensures freeBlocks == groups * (BLOCKS_PER_GROUP - DATA_OFFSET) - 1 && usedBlocks == 0
    {
      this.groups := groups;
      var map0 := new bool[groups * BLOCKS_PER_GROUP](_ => false);
      var free0 := new int[groups](_ => 0);
      var next0 := new nat[groups](_ => 0);
      bits, groupFree, nextBlock := map0, free0, next0;
      freeBlocks, usedBlocks, lastGroup, lastIno := 0, 0, 0, 0;
      new;
      WriteDescriptors();
      ReserveMetadata();
      TakeRootBlock();
    }

    /** The data-block part of nvfuse_alloc_root_inode_direct. */
    method TakeRootBlock()
      requires Counted() && groups >= 1 && !bits[DATA_OFFSET]
      modifies this`freeBlocks, bits, groupFree
      ensures Counted() && freeBlocks == old(freeBlocks) - 1
      ensures bits[..] == old(bits[..])[DATA_OFFSET := true]
    {
      hide GroupClear, Sum;
      var bd := MakeDescriptor(0, BLOCKS_PER_GROUP);
      var rootBlock := bd.dtableStart % BLOCKS_PER_GROUP;
      assert rootBlock == DATA_OFFSET;
      hide MakeDescriptor;
      ghost var was, wasFree := bits[..], groupFree[..];
      RootBlockTaken(was);
      bits[rootBlock] := true;
      assert bits[..] == was[rootBlock := true];
      groupFree[0] := groupFree[0] - 1;
      assert groupFree[..] == wasFree[0 := wasFree[0] - 1];
      freeBlocks := freeBlocks - 1;
      OneBit(was, rootBlock, 0);
      CountersFollow(was, bits[..], wasFree, groupFree[..], 0, -1);
    }

    /** nvfuse_format_write_bd: each group starts with all its data blocks free. */
    method WriteDescriptors()
      requires Shaped() && freeBlocks == 0
      modifies this`freeBlocks, groupFree
      ensures forall g :: 0 <= g < groups ==> groupFree[g] == BLOCKS_PER_GROUP - DATA_OFFSET
      ensures freeBlocks == Sum(groupFree[..]) == groups * (BLOCKS_PER_GROUP - DATA_OFFSET)
    {
      for g := 0 to groups
        invariant forall h :: 0 <= h < g ==> groupFree[h] == BLOCKS_PER_GROUP - DATA_OFFSET
        invariant freeBlocks == Sum(groupFree[..g]) == g * (BLOCKS_PER_GROUP - DATA_OFFSET)
      {
        var bd := MakeDescriptor(g * BLOCKS_PER_GROUP, BLOCKS_PER_GROUP);
        ghost var done := groupFree[..g];
        groupFree[g] := bd.freeBlocks;
        assert groupFree[..g + 1][..g] == done;
        freeBlocks := freeBlocks + bd.freeBlocks;
      }
      assert groupFree[..groups] == groupFree[..];
    }

    /** nvfuse_format_metadata_zeroing: the blocks before the data area are marked taken. */
    method ReserveMetadata()
      requires Shaped() && forall b :: 0 <= b < bits.Length ==> !bits[b]
      modifies bits
      ensures forall b :: 0 <= b < bits.Length ==> bits[b] == !IsData(b)
      ensures forall g :: 0 <= g < groups ==> GroupClear(bits[..], g) == BLOCKS_PER_GROUP - DATA_OFFSET
    {
      hide GroupClear;
      for g := 0 to groups
        invariant forall b :: 0 <= b < g * BLOCKS_PER_GROUP ==> bits[b] == !IsData(b)
        invariant forall b :: g * BLOCKS_PER_GROUP <= b < bits.Length ==> !bits[b]
      {
        ReserveInGroup(g);
      }
      forall g | 0 <= g < groups ensures GroupClear(bits[..], g) == BLOCKS_PER_GROUP - DATA_OFFSET {
        OnlyMetadataTaken(bits[..], g);
      }
    }

    /** The inner loop, for one group. */
    method ReserveInGroup(g: nat)
      requires Shaped() && g < groups
      modifies bits
      ensures forall b :: 0 <= b < bits.Length ==> bits[b] == (old(bits[b]) || 0 <= b - g * BLOCKS_PER_GROUP < DATA_OFFSET)
    {
      var bd := MakeDescriptor(g * BLOCKS_PER_GROUP, BLOCKS_PER_GROUP);
      for clu := bd.bgStart to bd.itableStart + bd.itableSize
        invariant forall b :: 0 <= b < bits.Length ==> bits[b] == (old(bits[b]) || g * BLOCKS_PER_GROUP <= b < clu)
      {
        bits[bd.bgStart + clu % BLOCKS_PER_GROUP] := true;
      }
    }

    /** One test of the scan: a clear bit is taken and becomes the hint. */
    method TakeBit(g: nat, position: nat, blks: seq<nat>, ghost was: seq<bool>)
      returns (blks': seq<nat>, taken: bool)
      requires Shaped() && g < groups && position < BLOCKS_PER_GROUP && |was| == bits.Length
      requires Taken(was, bits[..], blks) && (position < DATA_OFFSET ==> bits[g * BLOCKS_PER_GROUP + position])
      modifies bits, nextBlock
      ensures Taken(was, bits[..], blks') && |blks'| == |blks| + if taken then 1 else 0
      ensures bits[..] == old(bits[..])[g * BLOCKS_PER_GROUP + position := true]
      ensures GroupClear(bits[..], g) == GroupClear(old(bits[..]), g) - if taken then 1 else 0
    {
      var b := g * BLOCKS_PER_GROUP + position;
      blks', taken := blks, !bits[b];
      if taken {
        hide Taken, IsData;
        DataFrom(g, position);
        nextBlock[g] := position;
        ClearSet(bits[..], g * BLOCKS_PER_GROUP, (g + 1) * BLOCKS_PER_GROUP, b);
        OneMoreTaken(was, bits[..], blks, b);
        bits[b] := true;
        assert bits[..] == old(bits[..])[b := true];
        blks' := blks + [b];
      }
    }

    /** The bitmap scan of nvfuse_alloc_dbitmap: from the hint to the end of the group,
        then over the metadata area to the first data block and on. */
    method ScanGroup(g: nat, num: nat) returns (blks: seq<nat>, position: nat)
      requires Shaped() && g < groups && num >= 1
      requires forall b :: g * BLOCKS_PER_GROUP <= b < g * BLOCKS_PER_GROUP + DATA_OFFSET ==> bits[b]
      modifies bits, nextBlock
      ensures Taken(old(bits[..]), bits[..], blks) && position < BLOCKS_PER_GROUP
      ensures forall b :: 0 <= b < bits.Length && bits[b] != old(bits[b]) ==> b / BLOCKS_PER_GROUP == g
      ensures |blks| == Min(num, GroupClear(old(bits[..]), g))
      ensures GroupClear(bits[..], g) == GroupClear(old(bits[..]), g) - |blks|
    {
      hide Taken, GroupClear;
      ghost var was := bits[..];
      var base := g * BLOCKS_PER_GROUP;
      ghost var limit := base + BLOCKS_PER_GROUP;
      var cnt, left := 0, num;
      blks, position := [], nextBlock[g] % BLOCKS_PER_GROUP;
      NothingTaken(was);
      // Every data block in [start, end), or once wrapped in [start, ..) and [.., end), is taken.
      ghost var start := if position == 0 then BLOCKS_PER_GROUP else position;
      ghost var end, wrapped, all := start, false, false;
      while cnt < BLOCKS_PER_GROUP
        invariant Taken(was, bits[..], blks) && |blks| + left == num && left >= 1
        invariant GroupClear(bits[..], g) == GroupClear(was, g) - |blks|
        invariant forall b :: base <= b < base + DATA_OFFSET ==> bits[b]
        invariant forall b :: 0 <= b < bits.Length && bits[b] != was[b] ==> b / BLOCKS_PER_GROUP == g
        invariant 0 < end <= BLOCKS_PER_GROUP && position == end % BLOCKS_PER_GROUP
        invariant !wrapped ==> start <= end && cnt == end - start
        invariant !wrapped ==> forall b :: base + start <= b < base + end ==> bits[b]
        invariant wrapped && !all ==> cnt == BLOCKS_PER_GROUP - start + end - 1 && DATA_OFFSET < end
        invariant wrapped ==> forall b :: base + DATA_OFFSET <= b < base + end || base + start <= b < limit ==> bits[b]
        invariant all ==> cnt >= BLOCKS_PER_GROUP && forall b :: base + DATA_OFFSET <= b < limit ==> bits[b]
        decreases BLOCKS_PER_GROUP - cnt
      {
        cnt := cnt + 1;
        if position == 0 {
          position := DATA_OFFSET;
          cnt := cnt + (DATA_OFFSET - 1);
          all := wrapped;
          wrapped, end := true, DATA_OFFSET;
        }
        var taken;
        blks, taken := TakeBit(g, position, blks, was);
        if taken {
          left := left - 1;
          if left == 0 {
            break;
          }
        }
        position := (position + 1) % BLOCKS_PER_GROUP;
        end := end + 1;
      }
      if left != 0 {
        GroupFull(bits[..], g);
      }
    }

    /** nvfuse_alloc_dbitmap. */
    method AllocInGroup(g: nat, num: nat) returns (blks: seq<nat>)
      requires Valid() && g < groups && num >= 1
      modifies this`freeBlocks, this`usedBlocks, bits, groupFree, nextBlock
      ensures Valid() && Taken(old(bits[..]), bits[..], blks)
      ensures |blks| == Min(num, old(groupFree[g]))
      ensures groupFree[..] == old(groupFree[..])[g := old(groupFree[g]) - |blks|] && AllIn(blks, g)
      ensures freeBlocks == old(freeBlocks) - |blks| && usedBlocks == old(usedBlocks) + |blks|
    {
      hide GroupClear, Sum, Taken;
      ghost var was, wasFree := bits[..], groupFree[..];
      var position;
      blks, position := ScanGroup(g, num);
      if |blks| != 0 {
        // nvfuse_dec_free_blocks finds the group again from the last scan position
        var bg := (g * BLOCKS_PER_GROUP + position) / BLOCKS_PER_GROUP;
        groupFree[bg] := groupFree[bg] - |blks|;
        freeBlocks, usedBlocks := freeBlocks - |blks|, usedBlocks + |blks|;
      }
      assert groupFree[..] == wasFree[g := wasFree[g] - |blks|];
      CountersFollow(was, bits[..], wasFree, groupFree[..], g, -|blks|);
      StillMetadata(was, bits[..], blks);
      TakenIn(was, bits[..], blks, g);
    }

    /** One round of nvfuse_alloc_free_block: what group `bg` can give. */
    method TakeFromGroup(bg: nat, ino: nat, num: nat, blks: seq<nat>, ghost was: seq<bool>)
      returns (blks': seq<nat>, left: nat)
      requires Valid() && bg < groups && num >= 1 && Taken(was, bits[..], blks)
      modifies this, bits, groupFree, nextBlock
      ensures Valid() && Taken(was, bits[..], blks') && |blks'| + left == |blks| + num
      ensures blks <= blks' && AllIn(blks'[|blks|..], bg) && (left > 0 ==> groupFree[bg] == 0)
      ensures if |blks'| > |blks| then lastGroup == bg && lastIno == ino else lastGroup == old(lastGroup) && lastIno == old(lastIno)
      ensures groupFree.Length == groups && groupFree[..] == old(groupFree[..])[bg := groupFree[bg]]
      ensures freeBlocks == old(freeBlocks) - (|blks'| - |blks|) && usedBlocks == old(usedBlocks) + (|blks'| - |blks|)
    {
      FreeNonNegative();
      hide Taken, Valid;
      blks', left := blks, num;
      if groupFree[bg] != 0 {
        ghost var mid, free := bits[..], groupFree[..];
        var more := AllocInGroup(bg, num);
        TakenMore(was, mid, bits[..], blks, more);
        blks', left := blks + more, num - |more|;
        assert blks'[|blks|..] == more;
        assert groupFree[bg] == groupFree[..][bg];
        RecordHint(bg, ino);
      }
    }

    /** nvfuse_alloc_free_block: round robin over the groups. It starts at the group of the inode, or at the one
        that gave this inode its last blocks, and goes on to the next group when one has no more. */
    method AllocBlocks(ino: nat, num: nat) returns (blks: seq<nat>)
      requires Valid() && ino / INODES_PER_GROUP < groups && num >= 1
      modifies this, bits, groupFree, nextBlock
      ensures Valid() && Taken(old(bits[..]), bits[..], blks)
      ensures |blks| == Min(num, old(freeBlocks))
      ensures freeBlocks == old(freeBlocks) - |blks| && usedBlocks == old(usedBlocks) + |blks|
      ensures var first := if ino == old(lastIno) then old(lastGroup) else ino / 4096;
        && (forall i, j :: 0 <= i < j < |blks| ==>
             Rounds(first, blks[i] / BLOCKS_PER_GROUP, groups) <= Rounds(first, blks[j] / BLOCKS_PER_GROUP, groups))
        && forall i, g :: 0 <= i < |blks| && 0 <= g < groups ==>
             (Rounds(first, g, groups) < Rounds(first, blks[i] / BLOCKS_PER_GROUP, groups) ==> groupFree[g] == 0)
      ensures if blks != [] then lastIno == ino && lastGroup == blks[|blks| - 1] / BLOCKS_PER_GROUP
        else lastIno == old(lastIno) && lastGroup == old(lastGroup)
    {
      FreeNonNegative();
      hide Taken, Valid, Robin, Rounds;
      var bg: nat := ino / INODES_PER_GROUP;
      if bg != lastGroup && ino == lastIno {
        bg := lastGroup;
      }
      ghost var k;
      blks, k := RoundRobin(bg, ino, num);
      RobinIs(blks, groupFree[..], bg, k, ino, Hint(old(lastIno), old(lastGroup)), Hint(lastIno, lastGroup));
    }

    /** The loop of nvfuse_alloc_free_block, `k` rounds of it. */
    method RoundRobin(first: nat, ino: nat, num: nat) returns (blks: seq<nat>, ghost k: nat)
      requires Valid() && first < groups && num >= 1
      modifies this, bits, groupFree, nextBlock
      ensures Valid() && Taken(old(bits[..]), bits[..], blks) && |blks| == Min(num, old(freeBlocks))
      ensures freeBlocks == old(freeBlocks) - |blks| && usedBlocks == old(usedBlocks) + |blks|
      ensures groupFree.Length == groups
      ensures Robin(blks, groupFree[..], first, k, false, ino, Hint(old(lastIno), old(lastGroup)), Hint(lastIno, lastGroup))
    {
      FreeTotal();
      hide Taken, Valid, Robin, Cyclic, NoneLeft;
      ghost var was, hint := bits[..], Hint(lastIno, lastGroup);
      var bg, left, again := first, num, true;
      k := 0;
      blks := [];
      NothingTaken(was);
      RobinStarts(groupFree[..], first, ino, hint);
      CyclicStarts(first, groups);
      while again
        invariant Valid() && Taken(was, bits[..], blks) && |blks| + left == num && left >= 1
        invariant first < groups == groupFree.Length && k <= groups && again == (k < groups) && bg == Cyclic(first, k, groups)
        invariant Robin(blks, groupFree[..], first, k, true, ino, hint, Hint(lastIno, lastGroup))
        invariant freeBlocks == old(freeBlocks) - |blks| && usedBlocks == old(usedBlocks) + |blks|
        decreases groups - k
      {
        blks, left := OneRound(first, bg, ino, left, blks, was, k, hint);
        k := k + 1;
        if left == 0 {
          break;
        }
        bg, again := Following(bg, first, k);
      }
      FreeTotal();
      RobinEnds(blks, groupFree[..], first, k, left != 0, ino, hint, Hint(lastIno, lastGroup));
    }

    /** The next group, unless that is the first one again. */
    method Following(bg: nat, first: nat, ghost k: nat) returns (next: nat, again: bool)
      requires first < groups && 1 <= k <= groups && bg == Cyclic(first, k - 1, groups)
      ensures next == Cyclic(first, k, groups) && again == (k < groups)
    {
      NextCyclic(first, k - 1, groups);
      next := (bg + 1) % groups;
      again := next != first;
    }

    /** One round of that loop, as the round robin sees it. */
    method OneRound(first: nat, bg: nat, ino: nat, num: nat, blks: seq<nat>, ghost was: seq<bool>, ghost k: nat, ghost hint: Hint)
      returns (blks': seq<nat>, left: nat)
      requires Valid() && first < groups == groupFree.Length && k < groups && bg == Cyclic(first, k, groups) && num >= 1
      requires Taken(was, bits[..], blks) && Robin(blks, groupFree[..], first, k, true, ino, hint, Hint(lastIno, lastGroup))
      modifies this, bits, groupFree, nextBlock
      ensures Valid() && Taken(was, bits[..], blks') && |blks'| + left == |blks| + num && groupFree.Length == groups
      ensures Robin(blks', groupFree[..], first, k + 1, left != 0, ino, hint, Hint(lastIno, lastGroup))
      ensures freeBlocks == old(freeBlocks) - (|blks'| - |blks|) && usedBlocks == old(usedBlocks) + (|blks'| - |blks|)
    {
      hide Taken, Valid, Robin, AllIn, Cyclic;
      NextCyclic(first, k, groups);
      ghost var free, hint0 := groupFree[..], Hint(lastIno, lastGroup);
      blks', left := TakeFromGroup(bg, ino, num, blks, was);
      RobinRound(blks, free, first, k, ino, hint, hint0, blks', groupFree[..], Hint(lastIno, lastGroup));
      RobinAtMost(blks', groupFree[..], first, k + 1, groupFree[bg] == 0, left != 0, ino, hint, Hint(lastIno, lastGroup));
    }

    method RecordHint(bg: nat, ino: int)
      requires Valid() && bg < groups
      modifies this`lastGroup, this`lastIno
      ensures Valid() && lastGroup == bg && lastIno == ino
    {
      lastGroup, lastIno := bg, ino;
    }

    lemma FreeNonNegative()
      requires Valid()
      ensures groupFree.Length == groups && lastGroup < groups
      ensures freeBlocks >= 0 && forall g :: 0 <= g < groups ==> groupFree[g] >= 0
      ensures (forall g :: 0 <= g < groups ==> groupFree[g] == 0) ==> freeBlocks == 0
    {
      SumZero(groupFree[..]);
    }

    lemma FreeTotal()
      requires Valid()
      ensures groupFree.Length == groups && lastGroup < groups && freeBlocks >= 0 && (NoneLeft(groupFree[..]) ==> freeBlocks == 0)
    {
      FreeNonNegative();
    }

    // ------------------------------------------------------------------ freeing

    /** The bitmap loop of nvfuse_free_dbitmap. */
    method ClearRange(g: nat, offset: nat, count: nat)
      requires Shaped() && g < groups && offset + count <= BLOCKS_PER_GROUP
      requires forall b :: 0 <= b - g * BLOCKS_PER_GROUP - offset < count ==> bits[b]
      modifies bits, nextBlock
      ensures forall b :: 0 <= b < bits.Length ==>
        bits[b] == (old(bits[b]) && !(0 <= b - g * BLOCKS_PER_GROUP - offset < count))
      ensures GroupClear(bits[..], g) == GroupClear(old(bits[..]), g) + count
    {
      hide GroupClear;
      var first := g * BLOCKS_PER_GROUP + offset;
      for i := 0 to count
        invariant forall b :: 0 <= b < bits.Length ==> bits[b] == (old(bits[b]) && !(0 <= b - first < i))
        invariant GroupClear(bits[..], g) == GroupClear(old(bits[..]), g) + i
      {
        GroupUnset(bits[..], g, first + i);
        ghost var was := bits[..];
        bits[first + i] := false;
        assert bits[..] == was[first + i := false];
        nextBlock[g] := offset;
      }
    }

    /** nvfuse_free_dbitmap. */
    method FreeInGroup(g: nat, offset: nat, count: nat)
      requires Counted() && g < groups && offset < BLOCKS_PER_GROUP && offset + count <= BLOCKS_PER_GROUP
      requires forall b :: 0 <= b - g * BLOCKS_PER_GROUP - offset < count ==> bits[b]
      modifies this`freeBlocks, this`usedBlocks, bits, groupFree, nextBlock
      ensures Counted()
      ensures forall b :: 0 <= b < bits.Length ==>
        bits[b] == (old(bits[b]) && !(0 <= b - g * BLOCKS_PER_GROUP - offset < count))
      ensures freeBlocks == old(freeBlocks) + count && usedBlocks == old(usedBlocks) - count
    {
      hide GroupClear, Sum;
      ghost var was, wasFree := bits[..], groupFree[..];
      ClearRange(g, offset, count);
      if count != 0 {
        // nvfuse_inc_free_blocks finds the group again from the first block freed
        var bg := (g * BLOCKS_PER_GROUP + offset) / BLOCKS_PER_GROUP;
        InsideGroup(g, offset, count, g * BLOCKS_PER_GROUP + offset);
        groupFree[bg] := groupFree[bg] + count;
        freeBlocks, usedBlocks := freeBlocks + count, usedBlocks - count;
      }
      forall b | 0 <= b < |was| && was[b] != bits[..][b] ensures b / BLOCKS_PER_GROUP == g {
        InsideGroup(g, offset, count, b);
      }
      assert groupFree[..] == wasFree[g := wasFree[g] + count];
      CountersFollow(was, bits[..], wasFree, groupFree[..], g, count);
    }

    /** nvfuse_free_blocks: a run of blocks is split where it crosses into another group. */
    method FreeRun(start: nat, count: nat)
      requires Counted() && start + count <= bits.Length && forall b :: start <= b < start + count ==> bits[b]
      modifies this`freeBlocks, this`usedBlocks, bits, groupFree, nextBlock
      ensures Counted()
      ensures forall b :: 0 <= b < bits.Length ==> bits[b] == (old(bits[b]) && !(start <= b < start + count))
      ensures freeBlocks == old(freeBlocks) + count && usedBlocks == old(usedBlocks) - count
    {
      var end, pos, length := start + count, start, 0;
      var bg, offset := pos / BLOCKS_PER_GROUP, pos % BLOCKS_PER_GROUP;
      while pos < end
        invariant Counted() && start <= pos <= end && 0 <= length <= pos - start
        invariant 0 <= bg && 0 <= offset < BLOCKS_PER_GROUP && bg * BLOCKS_PER_GROUP + offset == pos - length
        invariant bg == pos / BLOCKS_PER_GROUP && (pos == end ==> length == 0)
        invariant forall b :: 0 <= b < bits.Length ==> bits[b] == (old(bits[b]) && !(start <= b < pos - length))
        invariant freeBlocks == old(freeBlocks) + (pos - length - start)
        invariant usedBlocks == old(usedBlocks) - (pos - length - start)
      {
        length := length + 1;
        var next := (pos + 1) / BLOCKS_PER_GROUP;
        if bg != next || pos + 1 == end {
          FreeInGroup(bg, offset, length);
          length, bg, offset := 0, (pos + 1) / BLOCKS_PER_GROUP, (pos + 1) % BLOCKS_PER_GROUP;
        }
        pos := pos + 1;
      }
    }

    /** nvfuse_free_blocks on data blocks, which is what block maps hold. */
    method FreeBlocks(start: nat, count: nat)
      requires Valid() && start + count <= bits.Length
      requires forall b :: start <= b < start + count ==> bits[b] && IsData(b)
      modifies this`freeBlocks, this`usedBlocks, bits, groupFree, nextBlock
      ensures Valid()
      ensures forall b :: 0 <= b < bits.Length ==> bits[b] == (old(bits[b]) && !(start <= b < start + count))
      ensures freeBlocks == old(freeBlocks) + count && usedBlocks == old(usedBlocks) - count
    {
      FreeRun(start, count);
    }
  }
}
