/** Allocation and truncation of a file's blocks (nvfuse_indirect.c). */
module BlockMap {
  import opened Sequences
  import opened BlockGroups
  import opened PointerTree
  import opened FileTree
  import opened BlockPath
  import opened FilePrune
  import opened FileCut
  import opened FileGrow

  /** Blocks `s` are taken data blocks. */
  ghost predicate AllTaken(bits: seq<bool>, s: set<nat>) {
    forall x :: x in s ==> x < |bits| && bits[x] && IsData(x)
  }

  /** Exactly the blocks `s` were freed. */
  ghost predicate Freed(was: seq<bool>, now: seq<bool>, s: set<nat>) {
    |now| == |was| && forall b :: 0 <= b < |now| ==> now[b] == (was[b] && b !in s)
  }

  /** The non-zero pointers among the first `p`. */
  ghost function NonZero(ptrs: seq<nat>, p: nat): set<nat>
    requires p <= |ptrs|
  {
    if p == 0 then {} else NonZero(ptrs, p - 1) + if ptrs[p - 1] == 0 then {} else {ptrs[p - 1]}
  }

  lemma {:induction false} NonZeroIff(ptrs: seq<nat>, p: nat, x: nat)
    requires p <= |ptrs|
    ensures x in NonZero(ptrs, p) <==> x != 0 && exists i :: 0 <= i < p && ptrs[i] == x
    decreases p
  {
    if p > 0 { NonZeroIff(ptrs, p - 1, x); }
  }

  lemma NonZeroReached(disk: Disk, ptrs: seq<nat>, p: nat)
    requires Forest(disk, ptrs, 0) && p <= |ptrs|
    ensures NonZero(ptrs, p) <= ReachAll(disk, ptrs, 0)
    ensures p == |ptrs| ==> NonZero(ptrs, p) == ReachAll(disk, ptrs, 0)
    ensures p < |ptrs| ==> ptrs[p] !in NonZero(ptrs, p)
  {
    forall x: nat ensures x in NonZero(ptrs, p) <==> x != 0 && exists i :: 0 <= i < p && ptrs[i] == x {
      NonZeroIff(ptrs, p, x);
    }
    forall x | x in NonZero(ptrs, p) ensures x in ReachAll(disk, ptrs, 0) {
      var i :| 0 <= i < p && ptrs[i] == x;
      assert x in Reach(disk, ptrs[i], 0);
    }
  }

  /** Blocks `s` are freed, except that the run of `count` blocks from `run` is still pending. */
  ghost predicate FreedButRun(was: seq<bool>, now: seq<bool>, s: set<nat>, run: nat, count: nat) {
    |now| == |was| && forall b: nat :: b < |now| ==> now[b] == (was[b] && (b !in s || run <= b < run + count))
  }

  lemma PrefixStep(disk: Disk, ptrs: seq<nat>, p: nat, d: nat)
    requires Forest(disk, ptrs, d) && p < |ptrs|
    ensures ReachAll(disk, ptrs[..p + 1], d) == ReachAll(disk, ptrs[..p], d) + Reach(disk, ptrs[p], d)
    ensures ReachAll(disk, ptrs[..p], d) !! Reach(disk, ptrs[p], d)
    ensures Reach(disk, ptrs[p], d) <= ReachAll(disk, ptrs, d) && Tree(disk, ptrs[p], d)
  {
    hide Reach, Tree;
    var a, b := ptrs[..p], ptrs[..p + 1];
    forall x | x in ReachAll(disk, a, d) ensures x in ReachAll(disk, b, d) && x !in Reach(disk, ptrs[p], d) {
      var i :| 0 <= i < |a| && x in Reach(disk, a[i], d);
      assert a[i] == b[i] == ptrs[i];
      assert Reach(disk, ptrs[i], d) !! Reach(disk, ptrs[p], d);
    }
    forall x | x in ReachAll(disk, b, d) ensures x in ReachAll(disk, a, d) + Reach(disk, ptrs[p], d) {
      var i :| 0 <= i < |b| && x in Reach(disk, b[i], d);
      assert i < p ==> a[i] == b[i];
    }
    assert b[p] == ptrs[p];
  }

  /** What is reached from a pointer block. */
  lemma PointerBlock(disk: Disk, nr: nat, d: nat, bits: seq<bool>)
    requires nr != 0 && d >= 1 && Tree(disk, nr, d) && AllTaken(bits, Reach(disk, nr, d))
    ensures nr in disk && Forest(disk, disk[nr], d - 1)
    ensures var kids := ReachAll(disk, disk[nr], d - 1);
      Reach(disk, nr, d) == {nr} + kids && nr !in kids && AllTaken(bits, kids) && AllTaken(bits, {nr})
  {
  }

  lemma RowCleared(disk: Disk, disk': Disk, kids: set<nat>, nr: nat, row: seq<nat>)
    requires ChangedWithin(disk, disk', kids) && nr in disk
    ensures ChangedWithin(disk, disk'[nr := row], {nr} + kids)
  {
  }

  /** Blocks were only taken away from a file, and exactly those were freed. */
  ghost predicate Shrunk(f: File, f': File, was: seq<bool>, now: seq<bool>) {
    && FileReach(f') <= FileReach(f) && Freed(was, now, FileReach(f) - FileReach(f'))
    && ChangedWithin(f.disk, f'.disk, FileReach(f))
  }

  lemma ShrunkBy(f: File, f': File, was: seq<bool>, now: seq<bool>, gone: set<nat>)
    requires FileReach(f') == FileReach(f) - gone && gone <= FileReach(f) && Freed(was, now, gone)
    requires ChangedWithin(f.disk, f'.disk, FileReach(f)) && AllTaken(was, FileReach(f))
    ensures Shrunk(f, f', was, now) && AllTaken(now, FileReach(f'))
  {
    hide FileReach;
    assert FileReach(f) - FileReach(f') == gone;
  }

  lemma ShrunkTwice(f: File, f1: File, f': File, was: seq<bool>, mid: seq<bool>, now: seq<bool>)
    requires Shrunk(f, f1, was, mid) && Shrunk(f1, f', mid, now)
    ensures Shrunk(f, f', was, now)
  {
    hide FileReach;
  }

  lemma ShrunkNot(f: File, was: seq<bool>)
    ensures Shrunk(f, f, was, was)
  {
    hide FileReach;
  }

  /** The same bit by bit: what is freed was the file's and is so no more. */
  lemma ShrunkIs(f: File, f': File, was: seq<bool>, now: seq<bool>)
    requires Shrunk(f, f', was, now)
    ensures |now| == |was| && FileReach(f') <= FileReach(f)
    ensures forall x :: 0 <= x < |was| ==> now[x] == (was[x] && (x in FileReach(f) ==> x in FileReach(f')))
  {
    hide FileReach;
  }

  /** Below 2^44 bytes, with a block to spare, the size says where the file is cut. */
  lemma CutBelow(f: File, f': File, offset: nat)
    requires |f.slots| == SLOTS == |f'.slots| && offset < S64
    requires CutsWhereItShould(offset) ==> KeptBelow(f, f', offset)
    ensures offset <= 17592186040320 ==>
      forall b :: 0 <= b < MAX_BLOCKS ==> Mapped(f', b) == if b * 4096 < offset then Mapped(f, b) else 0
  {
    hide CutsWhereItShould, Mapped;
    TruncationPoint(offset);
  }

  lemma TakenPart(bits: seq<bool>, s: set<nat>, part: set<nat>)
    requires AllTaken(bits, s) && part <= s
    ensures AllTaken(bits, part)
  {
  }

  /** Clearing a range of an array and freeing what was below it, as one step. */
  lemma RangeFreed(f: File, f': File, path: seq<nat>, lo: nat, hi: nat, e: nat, was: seq<bool>, now: seq<bool>)
    requires IsRange(f, path, lo, hi, e) && AllTaken(was, FileReach(f))
    requires var g, gone := Zeroed(f, path, lo, hi), RangeReach(f, path, lo, hi, e);
      f'.slots == g.slots && ChangedWithin(g.disk, f'.disk, gone) && Freed(was, now, gone)
    ensures IsTree(f') && Pruned(f, f', path, lo, hi) && Shrunk(f, f', was, now) && AllTaken(now, FileReach(f'))
  {
    hide *;
    RangeForest(f, path, lo, hi, e);
    PruneAndScribble(f, f', path, lo, hi, e);
    ShrunkBy(f, f', was, now, RangeReach(f, path, lo, hi, e));
  }

  /** The end of a pointer array can be freed ... */
  lemma EndReady(f: File, path: seq<nat>, lo: nat, e: nat, bits: seq<bool>)
    requires IsRange(f, path, lo, PTRS, e) && path != [] && AllTaken(bits, FileReach(f))
    ensures var nr := FilePtr(f, path);
      nr in f.disk && |f.disk[nr]| == PTRS && Forest(f.disk, f.disk[nr][lo..], e) &&
      AllTaken(bits, ReachAll(f.disk, f.disk[nr][lo..], e))
  {
    ArrayPresent(f, path);
    RangeForest(f, path, lo, PTRS, e);
    var row := ArrayAt(f, path);
    assert row[lo..PTRS] == row[lo..];
    TakenPart(bits, FileReach(f), RangeReach(f, path, lo, PTRS, e));
  }

  /** ... and then cleared. */
  lemma EndFreed(f: File, path: seq<nat>, lo: nat, e: nat, nr: nat, row: seq<nat>, cleared: seq<nat>,
                 disk1: Disk, was: seq<bool>, now: seq<bool>)
    requires IsRange(f, path, lo, PTRS, e) && path != [] && AllTaken(was, FileReach(f))
    requires nr == FilePtr(f, path) && nr in f.disk && row == f.disk[nr] && |row| == PTRS && cleared == Zeroes(|row[lo..]|)
    requires var gone := ReachAll(f.disk, row[lo..], e); Freed(was, now, gone) && ChangedWithin(f.disk, disk1, gone)
    ensures var f' := File(f.slots, disk1[nr := row[..lo] + cleared]);
      IsTree(f') && Pruned(f, f', path, lo, PTRS) && Shrunk(f, f', was, now) && AllTaken(now, FileReach(f'))
  {
    var f' := File(f.slots, disk1[nr := row[..lo] + cleared]);
    assert row == ArrayAt(f, path);
    assert row[lo..PTRS] == row[lo..] && row[..lo] + cleared == ZeroRow(row, lo, PTRS);
    RangeFreed(f, f', path, lo, PTRS, e, was, now);
  }

  /** A subtree that has just been detached can be freed. */
  lemma TopReady(f: File, path: seq<nat>, i: nat, e: nat, bits: seq<bool>)
    requires IsRange(f, path, i, i + 1, e) && AllTaken(bits, FileReach(f))
    ensures var g, top := Zeroed(f, path, i, i + 1), ArrayAt(f, path)[i];
      Forest(g.disk, [top], e) && ReachAll(g.disk, [top], e) == RangeReach(f, path, i, i + 1, e) &&
      AllTaken(bits, ReachAll(g.disk, [top], e)) && (top == 0 ==> ReachAll(g.disk, [top], e) == {})
  {
    var g, row := Zeroed(f, path, i, i + 1), ArrayAt(f, path);
    var top := row[i];
    assert row[i..i + 1] == [top];
    RangeForest(f, path, i, i + 1, e);
    assert path != [] ==> g.disk == f.disk[FilePtr(f, path) := ZeroRow(row, i, i + 1)];
    assert Tree(f.disk, [top][0], e) && Reach(f.disk, [top][0], e) <= ReachAll(f.disk, [top], e);
    hide Zeroed, IsRange, ZeroRow, FilePtr, FileReach, IsTree, Tree, Reach;
    Frame(f.disk, g.disk, top, e);
    assert ReachAll(g.disk, [top], e) == ReachAll(f.disk, [top], e);
    TakenPart(bits, FileReach(f), ReachAll(g.disk, [top], e));
    ZeroTree(g.disk, e);
  }

  lemma StillTaken(blks: seq<nat>, i: nat)
    requires i < |blks| && NoDuplicates(blks)
    ensures blks[i] in blks[i..] && forall x :: x in blks[i + 1..] <==> x in blks[i..] && x != blks[i]
  {
    assert blks[i..] == [blks[i]] + blks[i + 1..];
    assert forall j :: i < j < |blks| ==> blks[j] == blks[i + 1..][j - i - 1];
  }

  /** The first `n` pointer blocks of a new branch are in place. */
  ghost predicate RowsSet(disk: Disk, blks: seq<nat>, ind: nat, n: nat) {
    n <= ind < |blks| <= ind + PTRS &&
    forall j :: 0 <= j < n ==> blks[j] in disk && disk[blks[j]] == NewRow(blks[j..], ind - j)
  }

  /** Arrays were added or overwritten only in the blocks `s`. */
  ghost predicate Scribbled(was: Disk, now: Disk, s: set<nat>) {
    was.Keys <= now.Keys <= was.Keys + s && forall x :: x in was && x !in s ==> now[x] == was[x]
  }

  lemma StillScribbled(was: Disk, now: Disk, blks: seq<nat>)
    requires was == now
    ensures Scribbled(was, now, Blocks(blks))
  {
  }

  lemma ScribbledMore(was: Disk, now: Disk, blks: seq<nat>, i: nat, row: seq<nat>)
    requires Scribbled(was, now, Blocks(blks)) && i < |blks|
    ensures Scribbled(was, now[blks[i] := row], Blocks(blks))
  {
  }

  lemma RowSet(disk: Disk, blks: seq<nat>, ind: nat, n: nat, row: seq<nat>)
    requires 1 <= n <= ind && Fresh(blks) && RowsSet(disk, blks, ind, n - 1) && row == NewRow(blks[n - 1..], ind - n + 1)
    ensures RowsSet(disk[blks[n - 1] := row], blks, ind, n)
  {
    hide NewRow;
    assert forall j :: 0 <= j < n - 1 ==> blks[j] != blks[n - 1];
  }

  lemma {:induction false} RowsChained(disk: Disk, blks: seq<nat>, ind: nat, j: nat)
    requires RowsSet(disk, blks, ind, ind) && j <= ind
    ensures Chained(disk, blks[j..], ind - j)
    decreases ind - j
  {
    if j < ind {
      RowsChained(disk, blks, ind, j + 1);
      assert blks[j..][1..] == blks[j + 1..];
    }
  }

  lemma TakenAreFresh(was: seq<bool>, now: seq<bool>, blks: seq<nat>, s: set<nat>)
    requires Taken(was, now, blks) && AllTaken(was, s)
    ensures Fresh(blks) && Blocks(blks) !! s && AllTaken(now, s + Blocks(blks))
  {
  }

  lemma NewArraysOutside(disk: Disk, disk': Disk, blks: seq<nat>, s: set<nat>)
    requires Scribbled(disk, disk', Blocks(blks)) && Blocks(blks) !! s
    ensures SameOn(disk, disk', s)
  {
  }

  /** What appending does: `blks` were free and now belong to the file, the last `num` of them
      as logical blocks from `l` on; nothing else is mapped differently. */
  ghost predicate Appended(f: File, f': File, was: seq<bool>, now: seq<bool>, l: int, num: nat, blks: seq<nat>) {
    && num <= |blks| && Taken(was, now, blks) && FileReach(f') == FileReach(f) + Blocks(blks)
    && MapsMore(f, f', l, blks[|blks| - num..]) && (Lean(f) ==> Lean(f'))
    && Scribbled(f.disk, f'.disk, FileReach(f'))
  }

  /** A request for no blocks is treated as one for a single block. */
  function AtLeastOne(maxblocks: nat): nat {
    if maxblocks == 0 then 1 else maxblocks
  }

  /** `num` is how many blocks from `l` on are unmapped, up to `maxblocks` and the end of the array. */
  ghost predicate UnmappedRun(f: File, l: int, num: nat, maxblocks: nat)
    requires |f.slots| == SLOTS && 0 <= l < MAX_BLOCKS
  {
    && 1 <= num <= Min(AtLeastOne(maxblocks), Boundary(l) + 1)
    && (forall b :: l <= b < l + num ==> Mapped(f, b) == 0)
    && (num < Min(AtLeastOne(maxblocks), Boundary(l) + 1) ==> Mapped(f, l + num) != 0)
  }

  /** `num` is how many blocks from `l` on lie next to each other on disk. */
  ghost predicate MappedRun(f: File, l: int, num: nat, maxblocks: nat)
    requires |f.slots| == SLOTS && 0 <= l < MAX_BLOCKS
  {
    && 1 <= num <= Min(AtLeastOne(maxblocks), Boundary(l) + 1)
    && (forall b :: l <= b < l + num ==> Mapped(f, b) == Mapped(f, l) + (b - l))
    && (num < Min(AtLeastOne(maxblocks), Boundary(l) + 1) ==> Mapped(f, l + num) != Mapped(f, l) + num)
  }

  /** The same without the names: the run starts at the block, is one piece on disk, and ends only
      where the request, the array or the piece ends. */
  lemma MappedRunIs(f: File, l: int, num: nat, maxblocks: nat)
    requires |f.slots| == SLOTS && 0 <= l < MAX_BLOCKS && MappedRun(f, l, num, maxblocks)
    ensures 1 <= num && (num > 1 ==> num <= maxblocks) && num <= Boundary(l) + 1
    ensures forall b :: l <= b < l + num ==> Mapped(f, b) == Mapped(f, l) + (b - l)
    ensures num < maxblocks && num <= Boundary(l) ==> Mapped(f, l + num) != Mapped(f, l) + num
  {
    hide Boundary, Mapped;
  }

  lemma UnmappedRunIs(f: File, l: int, num: nat, maxblocks: nat)
    requires |f.slots| == SLOTS && 0 <= l < MAX_BLOCKS && UnmappedRun(f, l, num, maxblocks)
    ensures 1 <= num && (num > 1 ==> num <= maxblocks) && num <= Boundary(l) + 1 && l + num <= MAX_BLOCKS
    ensures forall b :: l <= b < l + num ==> Mapped(f, b) == 0
    ensures num < maxblocks && num <= Boundary(l) ==> Mapped(f, l + num) != 0
  {
    BoundaryCounts(l, num - 1);
    hide Boundary, Mapped;
  }

  /** Each logical block of the run, and no other, gets a block of its own that was free. */
  lemma AppendedIs(f: File, f': File, was: seq<bool>, now: seq<bool>, l: int, num: nat, blks: seq<nat>)
    requires 0 <= l && l + num <= MAX_BLOCKS && Appended(f, f', was, now, l, num, blks)
    ensures |f.slots| == SLOTS == |f'.slots| && |now| == |was|
    ensures forall b :: 0 <= b < MAX_BLOCKS && !(l <= b < l + num) ==> Mapped(f', b) == Mapped(f, b)
    ensures forall b :: l <= b < l + num ==> Mapped(f', b) < |was| && !was[Mapped(f', b)] && now[Mapped(f', b)]
    ensures forall a, b :: l <= a < b < l + num ==> Mapped(f', a) != Mapped(f', b)
    ensures forall x :: 0 <= x < |was| ==> (was[x] != now[x] <==> x in blks)
  {
    hide Mapped, FileReach, Lean, Scribbled;
    var data := blks[|blks| - num..];
    forall b | l <= b < l + num
      ensures Mapped(f', b) == blks[|blks| - num + (b - l)] && Mapped(f', b) in blks
    {
      assert data[b - l] == blks[|blks| - num + (b - l)];
    }
  }

  lemma GrownIsAppended(f: File, f': File, was: seq<bool>, now: seq<bool>, l: int, num: nat, blks: seq<nat>)
    requires num <= |blks| && Taken(was, now, blks) && AllTaken(was, FileReach(f)) && FileReach(f') == FileReach(f) + Blocks(blks)
    requires MapsMore(f, f', l, blks[|blks| - num..]) && (Lean(f) ==> Lean(f'))
    requires Scribbled(f.disk, f'.disk, FileReach(f'))
    ensures Appended(f, f', was, now, l, num, blks) && AllTaken(now, FileReach(f'))
  {
    hide FileReach, Taken;
    TakenAreFresh(was, now, blks, FileReach(f));
  }

  lemma ArrayScribbled(f: File, f': File, up: seq<nat>, row: seq<nat>)
    requires HasArray(f, up) && f' == WithArray(f, up, row) && FileReach(f) <= FileReach(f')
    ensures Scribbled(f.disk, f'.disk, FileReach(f'))
  {
    if up != [] { ArrayPresent(f, up); }
  }

  lemma BranchScribbled(f: File, g: File, f': File, at: seq<nat>, blks: seq<nat>)
    requires HasSlot(g, at) && blks != [] && f' == FileStored(g, at, blks[0]) && Scribbled(f.disk, g.disk, Blocks(blks))
    requires FileReach(g) == FileReach(f) && FileReach(f') == FileReach(f) + Blocks(blks)
    ensures Scribbled(f.disk, f'.disk, FileReach(f'))
  {
    HasSlotIff(g, at);
    SlotReached(g, at[0]);
    hide FileReach, IsTree, FilePtr, SlotReach, HasSlot, Reach, Tree, Holder;
  }

  /** The slots of an unmapped run are free. */
  lemma FreeRunOf(f: File, l: int, n: nat)
    requires IsTree(f) && 0 <= l < MAX_BLOCKS && n <= Boundary(l) + 1 && forall b :: l <= b < l + n ==> Mapped(f, b) == 0
    requires var path := BlockToPath(l); var m := |path| - 1;
      IsRange(f, path[..m], path[m], path[m] + Boundary(l) + 1, 0)
    ensures var path := BlockToPath(l); var m := |path| - 1;
      AreFree(ArrayAt(f, path[..m]), path[m], path[m] + n)
  {
    var path := BlockToPath(l);
    var m := |path| - 1;
    var row := ArrayAt(f, path[..m]);
    hide BlockToPath, Boundary, IsTree, Mapped, ArrayAt;
    forall i | path[m] <= i < path[m] + n ensures row[i] == 0 {
      RunMapped(f, l, path, i - path[m]);
      assert Mapped(f, l + (i - path[m])) == 0;
    }
  }

  /** The branch `keys` ends at a free slot, and the rest of `path` is zeroes. */
  ghost predicate EndsFree(f: File, path: seq<nat>, keys: seq<nat>) {
    var k := |keys|;
    && 1 <= k < |path| && HasSlot(f, path[..k]) && FilePtr(f, path[..k]) == 0
    && AllZero(path[k..]) && Below(path[..k]) == |path| - k
    && (k > 1 ==> IsPath(path[..k - 1]) && keys[k - 2] == FilePtr(f, path[..k - 1]))
  }

  /** A new branch can be attached where the present one ends. */
  lemma BranchReady(f: File, l: int, path: seq<nat>, keys: seq<nat>)
    requires IsTree(f) && 0 <= l < MAX_BLOCKS && path == BlockToPath(l) && IsPath(path) && Branch(f, path, keys)
    requires |keys| < |path| && keys[|keys| - 1] == 0 && AppendsAt(f, path)
    ensures EndsFree(f, path, keys) && Boundary(l) + 1 <= PTRS
  {
    var k := |keys|;
    var at := path[..k];
    PathOfBlock(l);
    PrefixPath(path, k);
    assert FilePtr(f, path[..k]) == 0;
    if k > 1 {
      PrefixPath(path, k - 1);
      assert keys[k - 2] == FilePtr(f, path[..k - 1]) && at[1..|at| - 1] == path[..k - 1][1..];
    }
    hide BlockToPath, IsTree, FilePtr, AppendsAt;
    HasSlotIff(f, at);
    ZeroesBelow(f, path, k);
  }

  /** `g` is file `f` with the new pointer blocks filled, and `f'` has them attached. */
  ghost predicate Attached(f: File, g: File, f': File, path: seq<nat>, k: nat, blks: seq<nat>) {
    && k <= |path| && g == File(f.slots, g.disk) && HasSlot(g, path[..k]) && FileReach(g) == FileReach(f)
    && Chained(g.disk, blks, |path| - k) && Scribbled(f.disk, g.disk, Blocks(blks))
    && SameOn(f.disk, g.disk, FileReach(f)) && blks != [] && f' == FileStored(g, path[..k], blks[0])
  }

  /** Filling the new pointer blocks leaves the file as it was, ready for the last store. */
  lemma BranchBuilt(f: File, g: File, path: seq<nat>, keys: seq<nat>, blks: seq<nat>)
    requires EndsFree(f, path, keys)
    requires blks != [] && Blocks(blks) !! FileReach(f) && g.slots == f.slots && Scribbled(f.disk, g.disk, Blocks(blks))
    ensures var k := |keys|; var at, up, i := path[..k], path[..k - 1], path[k - 1];
      && HasSlot(g, at) && HasArray(g, up) && i + 1 <= |ArrayAt(g, up)| && (up != [] ==> keys[|up| - 1] == FilePtr(g, up))
      && WithArray(g, up, Placed(ArrayAt(g, up), i, [blks[0]])) == FileStored(g, at, blks[0])
      && FileReach(g) == FileReach(f) && SameOn(f.disk, g.disk, FileReach(f)) && g == File(f.slots, g.disk)
  {
    var k := |keys|;
    var at := path[..k];
    NewArraysOutside(f.disk, g.disk, blks, FileReach(f));
    FileFrame(f, g.disk);
    SlotStays(f, g.disk, at);
    assert g == File(f.slots, g.disk);
    assert at[..k - 1] == path[..k - 1];
    hide FileReach, FilePtr, HasSlot, HasArray, IsTree, FileStored, WithArray, ArrayAt;
    StoredIsPlaced(g, at, blks[0]);
  }

  lemma ChainReady(f: File, path: seq<nat>, keys: seq<nat>)
    requires EndsFree(f, path, keys)
    ensures 1 <= |keys| < |path| && AllZero(path[|keys|..])
  {
  }

  lemma ChainAttached(f: File, g: File, path: seq<nat>, k: nat, blks: seq<nat>)
    requires k <= |path| && g == File(f.slots, g.disk) && HasSlot(g, path[..k]) && FileReach(g) == FileReach(f)
    requires Chained(g.disk, blks, |path| - k) && Scribbled(f.disk, g.disk, Blocks(blks))
    requires SameOn(f.disk, g.disk, FileReach(f)) && blks != []
    ensures Attached(f, g, FileStored(g, path[..k], blks[0]), path, k, blks)
  {
    hide HasSlot, FileReach, Chained, Scribbled, SameOn, FileStored;
  }

  lemma BranchAppended(f: File, g: File, f': File, l: int, path: seq<nat>, keys: seq<nat>, k: nat,
                       blks: seq<nat>, was: seq<bool>, now: seq<bool>)
    requires IsTree(f) && 0 <= l < MAX_BLOCKS && path == BlockToPath(l) && k < |path|
    requires IsPath(path) && AppendsAt(f, path) && |keys| == k && EndsFree(f, path, keys) && Attached(f, g, f', path, k, blks)
    requires |path| - k < |blks| <= |path| - k + Boundary(l) + 1 && Taken(was, now, blks) && AllTaken(was, FileReach(f))
    ensures IsTree(f') && Appended(f, f', was, now, l, |blks| - (|path| - k), blks) && AllTaken(now, FileReach(f'))
  {
    hide IsTree, BlockToPath, IsPath, AppendsAt, HasSlot, FilePtr, AllZero, Below, FileReach, Chained, Scribbled, Blocks, SameOn,
      FileStored, Taken, AllTaken, Boundary, MapsMore, Lean, Fresh, Appended;
    TakenAreFresh(was, now, blks, FileReach(f));
    BranchGrows(f, f', l, path, k, g.disk, blks);
    BranchScribbled(f, g, f', path[..k], blks);
    var num: nat := |blks| - (|path| - k);
    assert |blks| - num == |path| - k;
    GrownIsAppended(f, f', was, now, l, num, blks);
  }

  lemma RunOf(f: File, l: int, num: nat, maxblocks: nat)
    requires |f.slots| == SLOTS && 0 <= l < MAX_BLOCKS && UnmappedRun(f, l, num, maxblocks)
    ensures forall b :: l <= b < l + num ==> Mapped(f, b) == 0
  {
  }

  /** `row` holds the pointers of the logical blocks from `l` to the end of its array. */
  ghost predicate HoldsRun(f: File, l: int, path: seq<nat>, row: seq<nat>)
    requires |f.slots| == SLOTS && 0 <= l < MAX_BLOCKS && path != []
  {
    var at := path[|path| - 1];
    at + Boundary(l) < |row| && forall b :: l <= b <= l + Boundary(l) ==> row[b - l + at] == Mapped(f, b)
  }

  lemma SlotsOfRun(f: File, l: int, path: seq<nat>, keys: seq<nat>)
    requires IsTree(f) && 0 <= l < MAX_BLOCKS && path == BlockToPath(l) && IsPath(path)
    requires Branch(f, path, keys) && |keys| == |path|
    ensures |keys| > 1 ==> keys[|keys| - 2] in f.disk
    ensures HoldsRun(f, l, path, if |keys| == 1 then f.slots else f.disk[keys[|keys| - 2]])
    ensures Mapped(f, l) == keys[|keys| - 1]
  {
    assert |f.slots| == SLOTS;
    hide *;
    EndOfBranch(f, l, path, keys);
    RunRange(f, l, path, keys);
    ArrayHoldsRun(f, l, path);
  }

  lemma ArrayHoldsRun(f: File, l: int, path: seq<nat>)
    requires IsTree(f) && 0 <= l < MAX_BLOCKS && path == BlockToPath(l)
    requires IsRange(f, path[..|path| - 1], path[|path| - 1], path[|path| - 1] + Boundary(l) + 1, 0)
    requires path[|path| - 1] + Boundary(l) + 1 <= |ArrayAt(f, path[..|path| - 1])|
    ensures HoldsRun(f, l, path, ArrayAt(f, path[..|path| - 1]))
  {
    hide BlockToPath, IsTree, Boundary, ArrayAt, Mapped, IsRange, IsFull;
    ArrayRoom(l, path);
    NotEmpty(path);
    RangeArray(f, path[..|path| - 1], path[|path| - 1], path[|path| - 1] + Boundary(l) + 1);
    var at := path[|path| - 1];
    var row := ArrayAt(f, path[..|path| - 1]);
    forall b | l <= b <= l + Boundary(l) ensures row[b - l + at] == Mapped(f, b) {
      RunMapped(f, l, path, b - l);
    }
  }

  lemma RangeArray(f: File, up: seq<nat>, lo: nat, hi: nat)
    requires IsRange(f, up, lo, hi, 0)
    ensures HasArray(f, up) && |f.slots| == SLOTS
  {
  }

  lemma NotEmpty(path: seq<nat>)
    requires IsFull(path)
    ensures path != []
  {
  }

  lemma HoldsAt(f: File, l: int, path: seq<nat>, row: seq<nat>, i: nat)
    requires |f.slots| == SLOTS && 0 <= l < MAX_BLOCKS && path != [] && HoldsRun(f, l, path, row) && i <= Boundary(l)
    ensures path[|path| - 1] + Boundary(l) < |row|
    ensures path[|path| - 1] + i < |row| && row[path[|path| - 1] + i] == Mapped(f, l + i)
  {
    hide Boundary, Mapped;
    assert row[l + i - l + path[|path| - 1]] == Mapped(f, l + i);
  }

  lemma CountedSlots(f: File, l: int, path: seq<nat>, row: seq<nat>, count: nat, maxblocks: nat)
    requires |f.slots| == SLOTS && 0 <= l < MAX_BLOCKS && path != [] && HoldsRun(f, l, path, row)
    requires var at := path[|path| - 1];
      1 <= count <= Min(AtLeastOne(maxblocks), Boundary(l) + 1) && AreFree(row, at, at + count) &&
      (count == Min(AtLeastOne(maxblocks), Boundary(l) + 1) || row[at + count] != 0)
    ensures UnmappedRun(f, l, count, maxblocks)
  {
    hide Boundary, Mapped;
    var at := path[|path| - 1];
    forall b | l <= b < l + count ensures Mapped(f, b) == 0 {
      assert row[b - l + at] == 0;
    }
    assert count <= Boundary(l) ==> row[l + count - l + at] == Mapped(f, l + count);
  }

  lemma CountedMapped(f: File, l: int, path: seq<nat>, row: seq<nat>, count: nat, maxblocks: nat)
    requires |f.slots| == SLOTS && 0 <= l < MAX_BLOCKS && path != [] && HoldsRun(f, l, path, row)
    requires var at := path[|path| - 1];
      1 <= count <= Min(AtLeastOne(maxblocks), Boundary(l) + 1) && at + Boundary(l) < |row| &&
      (forall i :: at <= i < at + count ==> row[i] == row[at] + (i - at)) &&
      (count == Min(AtLeastOne(maxblocks), Boundary(l) + 1) || row[at + count] != row[at] + count)
    ensures MappedRun(f, l, count, maxblocks)
  {
    hide Boundary, Mapped, HoldsRun;
    var at := path[|path| - 1];
    HoldsAt(f, l, path, row, 0);
    forall b | l <= b < l + count ensures Mapped(f, b) == Mapped(f, l) + (b - l) {
      HoldsAt(f, l, path, row, b - l);
    }
    if count <= Boundary(l) { HoldsAt(f, l, path, row, count); }
  }

  lemma CountedBranch(f: File, l: int, path: seq<nat>, keys: seq<nat>, count: nat, maxblocks: nat)
    requires |f.slots| == SLOTS && 0 <= l < MAX_BLOCKS && path == BlockToPath(l) && IsPath(path) && Branch(f, path, keys)
    requires |keys| < |path| && keys[|keys| - 1] == 0 && 1 <= count == Min(AtLeastOne(maxblocks), Boundary(l) + 1)
    ensures UnmappedRun(f, l, count, maxblocks)
  {
    assert FilePtr(f, path[..|keys|]) == 0;
    hide BlockToPath, Mapped, Boundary, FilePtr;
    forall b | l <= b < l + count ensures Mapped(f, b) == 0 { RunUnmapped(f, l, |keys|, b - l); }
  }

  lemma EndOfBranch(f: File, l: int, path: seq<nat>, keys: seq<nat>)
    requires |f.slots| == SLOTS && 0 <= l < MAX_BLOCKS && path == BlockToPath(l) && IsPath(path) && Branch(f, path, keys)
    ensures 1 <= |keys| <= |path| <= 4 && (keys[|keys| - 1] == 0 ==> Mapped(f, l) == 0)
    ensures |keys| == |path| ==> Mapped(f, l) == keys[|keys| - 1]
  {
    PathOfBlock(l);
    BlockOfPath(path);
    var k := |keys|;
    assert keys[k - 1] == FilePtr(f, path[..k]) && path[..|path|] == path;
    hide BlockToPath, FilePtr;
    ZeroPrefix(f, path, k);
  }

  lemma FirstAppended(f: File, f': File, now: seq<bool>, l: int, num: nat, blks: seq<nat>)
    requires 0 <= l < MAX_BLOCKS && 1 <= num && exists was :: Appended(f, f', was, now, l, num, blks)
    ensures Mapped(f', l) == blks[|blks| - num] != 0
  {
    var was :| Appended(f, f', was, now, l, num, blks);
    assert blks[|blks| - num] in blks;
    assert IsData(blks[|blks| - num]);
  }

  /** How many blocks it takes to append `count` blocks at block `n`, up to the end of the array. */
  ghost function Need(f: File, n: nat, count: nat): int
    requires |f.slots| == SLOTS && n < MAX_BLOCKS
  {
    PathOfBlock(n);
    Missing(f, BlockToPath(n)) + Min(count, Boundary(n) + 1)
  }

  lemma NeedIs(f: File, n: nat, count: nat)
    requires |f.slots| == SLOTS && n < MAX_BLOCKS
    ensures (PathOfBlock(n); Need(f, n, count) == Missing(f, BlockToPath(n)) + Min(count, Boundary(n) + 1))
  {
  }

  lemma EndOfFile(f: File, n: nat)
    requires HoleFree(f, n) && n < MAX_BLOCKS
    ensures Mapped(f, n) == 0 && (PathOfBlock(n); Missing(f, BlockToPath(n)) <= 3)
  {
    PathOfBlock(n);
    FewMissing(f, BlockToPath(n));
  }

  /** Behind the end of a file without holes only the array limits a run. */
  lemma RunAtEnd(f: File, n: nat, num: nat, maxblocks: nat)
    requires HoleFree(f, n) && n < MAX_BLOCKS && UnmappedRun(f, n, num, maxblocks) && maxblocks >= 1
    ensures num == Min(maxblocks, Boundary(n) + 1) && 1 <= num <= maxblocks && n + num <= MAX_BLOCKS
  {
    hide BlockToPath, Boundary, Mapped;
    BoundaryCounts(n, num - 1);
    if num < Min(AtLeastOne(maxblocks), Boundary(n) + 1) {
      BoundaryCounts(n, num);
    }
  }

  /** A run that starts before the end of a file without holes ends before it. */
  lemma MappedBounds(f: File, l: nat, num: nat, maxblocks: nat, n: nat)
    requires HoleFree(f, n) && l < n <= MAX_BLOCKS && MappedRun(f, l, num, maxblocks) && maxblocks >= 1
    ensures 1 <= num <= maxblocks && l + num <= n
  {
    hide BlockToPath, Boundary, Mapped;
    BoundaryCounts(l, num - 1);
    assert Mapped(f, l) != 0;
    assert Mapped(f, l + num - 1) == Mapped(f, l) + (num - 1);
  }

  /** Blocks up to the end of a file without holes can be asked for. */
  lemma RunReady(f: File, curr: nat, end: nat)
    requires HoleFree(f, end) && curr <= end <= MAX_BLOCKS
    ensures |f.slots| == SLOTS && (curr < end ==> Mapped(f, curr) != 0)
    ensures curr == end < MAX_BLOCKS ==>
      Mapped(f, curr) == 0 && (PathOfBlock(curr); AppendsAt(f, BlockToPath(curr)) && Missing(f, BlockToPath(curr)) <= 3)
  {
    if curr == end < MAX_BLOCKS {
      AppendAllowed(f, curr);
      EndOfFile(f, curr);
    }
  }

  lemma RunDone(f: File, curr: nat, end: nat, remain: nat, num: nat, run: nat)
    requires HoleFree(f, end) && curr <= end <= MAX_BLOCKS && remain >= 1
    requires curr < end ==> MappedRun(f, curr, num, remain)
    requires curr == end < MAX_BLOCKS ==> UnmappedRun(f, curr, run, remain)
    ensures curr < end ==> 1 <= num <= remain && curr + num <= end
    ensures curr == end < MAX_BLOCKS ==> 1 <= run == Min(remain, Boundary(curr) + 1) <= remain && curr + run <= MAX_BLOCKS
  {
    hide *;
    if curr < end {
      MappedBounds(f, curr, num, remain, end);
    } else if curr < MAX_BLOCKS {
      RunAtEnd(f, curr, run, remain);
    }
  }

  lemma HoleFreeOnce(f: File, m: nat, n: nat)
    requires HoleFree(f, m) && m < n <= MAX_BLOCKS
    ensures !HoleFree(f, n)
  {
    hide Mapped;
    assert Mapped(f, m) == 0;
  }

  lemma AppendedAtEnd(f: File, f': File, was: seq<bool>, now: seq<bool>, n: nat, num: nat, blks: seq<nat>)
    requires HoleFree(f, n) && Appended(f, f', was, now, n, num, blks)
    ensures HoleFree(f', n + num) && (Lean(f) ==> Lean(f'))
  {
    hide HoleFree, MapsMore, FileReach, Lean;
    assert 0 !in blks by {
      assert !IsData(0);
    }
    AppendKeepsHoleFree(f, f', n, blks[|blks| - num..]);
  }

  // ------------------------------------------------------ trimming a shared branch

  /** Truncation at `o` has cleared everything from level `i` of the branch down. */
  ghost predicate Trimming(f: File, f1: File, o: seq<nat>, keys: seq<nat>, p: nat, i: nat, all: bool, was: seq<bool>, now: seq<bool>) {
    && Shared(f, o, keys, p) && i <= p && (!all ==> i == p)
    && CutOff(f, f1, o[..p + 1], i + 1, all) && Shrunk(f, f1, was, now)
  }

  lemma TrimBounds(f: File, f1: File, o: seq<nat>, keys: seq<nat>, p: nat, was: seq<bool>, now: seq<bool>, all: bool)
    requires Trimming(f, f1, o, keys, p, p, all, was, now)
    ensures p < |o| && p < |keys|
  {
  }

  lemma TrimStart(f: File, f1: File, o: seq<nat>, keys: seq<nat>, p: nat, all: bool, was: seq<bool>, now: seq<bool>)
    requires Shared(f, o, keys, p)
    requires if all then Pruned(f, f1, o[..p], o[p], o[p] + 1) && Shrunk(f, f1, was, now) else f1 == f && now == was
    ensures Trimming(f, f1, o, keys, p, p, all, was, now)
  {
    var cut := o[..p + 1];
    assert cut[..p] == o[..p] && cut[p] == o[p];
    hide Shared, Pruned, CutOff, Shrunk;
    if all {
      CutTop(f, f1, cut);
    } else {
      SharedSlots(f, o, keys, p);
      CutNothing(f, cut);
      ShrunkNot(f, was);
    }
  }

  lemma SharedSlots(f: File, o: seq<nat>, keys: seq<nat>, p: nat)
    requires Shared(f, o, keys, p)
    ensures |f.slots| == SLOTS
  {
  }

  lemma TrimReady(f: File, f1: File, o: seq<nat>, keys: seq<nat>, p: nat, i: nat, all: bool, was: seq<bool>, now: seq<bool>)
    requires Trimming(f, f1, o, keys, p, i, all, was, now) && 1 <= i && IsTree(f1)
    ensures IsPath(o[..i]) && o[..i] != [] && p < |keys| && keys[i - 1] == FilePtr(f1, o[..i])
    ensures IsRange(f1, o[..i], if all then o[i] + 1 else o[i], PTRS, |o| - 1 - i)
  {
    BranchAt(f, f1, o, keys, p, i, all);
  }

  lemma TrimStep(f: File, f1: File, f2: File, o: seq<nat>, keys: seq<nat>, p: nat, i: nat, all: bool,
                 was: seq<bool>, mid: seq<bool>, now: seq<bool>)
    requires Trimming(f, f1, o, keys, p, i, all, was, mid) && 1 <= i <= p < |o|
    requires Pruned(f1, f2, o[..i], if all then o[i] + 1 else o[i], PTRS) && Shrunk(f1, f2, mid, now)
    ensures Trimming(f, f2, o, keys, p, i - 1, true, was, now)
  {
    var cut := o[..p + 1];
    assert cut[..i] == o[..i] && cut[i] == o[i];
    hide Shared, Pruned, CutOff, Shrunk;
    CutEnd(f, f1, f2, cut, i, all);
    ShrunkTwice(f, f1, f2, was, mid, now);
  }

  lemma TrimEnd(f: File, f1: File, o: seq<nat>, keys: seq<nat>, p: nat, was: seq<bool>, now: seq<bool>)
    requires Trimming(f, f1, o, keys, p, 0, true, was, now)
    ensures p < |o| && |f.slots| == SLOTS && IsPath(o) && NothingLeft(f, o, p) && (p > 0 ==> SomethingLeft(f, o, p))
    ensures CutSlots(f, f1, o[..p + 1], o[0] + 1) && Shrunk(f, f1, was, now)
  {
    hide CutOff, Shrunk, NothingLeft, SomethingLeft, CutSlots;
    CutLevelOne(f, f1, o[..p + 1]);
  }

  lemma AllRowsChained(disk: Disk, blks: seq<nat>, ind: nat)
    requires RowsSet(disk, blks, ind, ind)
    ensures Chained(disk, blks, ind)
  {
    RowsChained(disk, blks, ind, 0);
    assert blks[0..] == blks;
  }

  /** The next branch has not been touched by freeing those before it ... */
  lemma NextBranch(disk: Disk, disk': Disk, ptrs: seq<nat>, p: nat, d: nat, was: seq<bool>, now: seq<bool>)
    requires Forest(disk, ptrs, d) && p < |ptrs| && AllTaken(was, ReachAll(disk, ptrs, d))
    requires Freed(was, now, ReachAll(disk, ptrs[..p], d)) && ChangedWithin(disk, disk', ReachAll(disk, ptrs[..p], d))
    ensures Tree(disk', ptrs[p], d) && Reach(disk', ptrs[p], d) == Reach(disk, ptrs[p], d) && AllTaken(now, Reach(disk', ptrs[p], d))
  {
    PrefixStep(disk, ptrs, p, d);
    hide Reach, Tree, ReachAll, Forest, IsData;
    Frame(disk, disk', ptrs[p], d);
  }

  /** ... and freeing it comes on top. */
  lemma BranchFreed(disk: Disk, disk1: Disk, disk2: Disk, ptrs: seq<nat>, p: nat, d: nat, was: seq<bool>, mid: seq<bool>, now: seq<bool>)
    requires Forest(disk, ptrs, d) && p < |ptrs|
    requires Freed(was, mid, ReachAll(disk, ptrs[..p], d)) && ChangedWithin(disk, disk1, ReachAll(disk, ptrs[..p], d))
    requires Freed(mid, now, Reach(disk, ptrs[p], d)) && ChangedWithin(disk1, disk2, Reach(disk, ptrs[p], d))
    ensures Freed(was, now, ReachAll(disk, ptrs[..p + 1], d)) && ChangedWithin(disk, disk2, ReachAll(disk, ptrs[..p + 1], d))
  {
    PrefixStep(disk, ptrs, p, d);
    hide Reach, Tree, ReachAll, Forest;
  }

  lemma NothingChanged(disk: Disk, s: set<nat>)
    ensures ChangedWithin(disk, disk, s)
  {
  }

  lemma NoBranch(disk: Disk, bits: seq<bool>, d: nat)
    ensures Reach(disk, 0, d) == {} && Freed(bits, bits, {}) && ChangedWithin(disk, disk, {})
    ensures ReachAll(disk, [], d) == {}
  {
  }

  class Inode {
    const sb: Superblock
    const ino: nat
    var slots: seq<nat>      // i_blocks
    var disk: Disk           // the pointer blocks, as seen through the buffer cache

    ghost function Map(): File
      reads this
    {
      File(slots, disk)
    }

    /** The block map is a tree over blocks marked taken. */
    ghost predicate Valid()
      reads this, sb.Footprint()
    {
      && sb.Valid() && ino / INODES_PER_GROUP < sb.groups
      && IsTree(Map()) && AllTaken(sb.bits[..], FileReach(Map()))
    }

    /** A new inode maps nothing. */
    constructor (sb: Superblock, ino: nat, disk: Disk)
      requires sb.Valid() && ino / INODES_PER_GROUP < sb.groups
      ensures this.sb == sb && this.ino == ino && this.disk == disk && slots == Zeroes(SLOTS)
      ensures Valid() && HoleFree(Map(), 0) && Lean(Map())
    {
      this.sb, this.ino, this.disk := sb, ino, disk;
      slots := Zeroes(SLOTS);
    }

    /** Frees the pending run of nvfuse_free_data. */
    method FlushRun(run: nat, count: nat, ghost was: seq<bool>, ghost seen: set<nat>)
      requires sb.Valid() && count > 0 && AllTaken(was, seen) && FreedButRun(was, sb.bits[..], seen, run, count)
      requires forall b: nat :: run <= b < run + count ==> b in seen
      modifies sb, sb.bits, sb.groupFree, sb.nextBlock
      ensures sb.Valid() && Freed(was, sb.bits[..], seen)
    {
      assert run + count - 1 in seen;
      sb.FreeBlocks(run, count);
    }

    /** nvfuse_free_data: contiguous blocks are freed as one run. */
    method FreeData(ptrs: seq<nat>) returns (cleared: seq<nat>)
      requires sb.Valid() && Forest(disk, ptrs, 0) && AllTaken(sb.bits[..], ReachAll(disk, ptrs, 0))
      modifies sb, sb.bits, sb.groupFree, sb.nextBlock
      ensures sb.Valid() && cleared == Zeroes(|ptrs|)
      ensures Freed(old(sb.bits[..]), sb.bits[..], ReachAll(disk, ptrs, 0))
    {
      hide sb.Valid;
      hide Forest, ReachAll, IsData;
      var run: nat, count: nat := 0, 0;
      cleared := ptrs;
      ghost var was := sb.bits[..];
      for p := 0 to |ptrs|
        invariant |cleared| == |ptrs| && forall i :: 0 <= i < |ptrs| ==> cleared[i] == if i < p then 0 else ptrs[i]
        invariant sb.Valid() && FreedButRun(was, sb.bits[..], NonZero(ptrs, p), run, count)
        invariant forall b: nat :: run <= b < run + count ==> b in NonZero(ptrs, p)
      {
        NonZeroReached(disk, ptrs, p);
        NonZeroReached(disk, ptrs, p + 1);
        var nr := cleared[p];
        if nr != 0 {
          cleared := cleared[p := 0];
          if count == 0 {
            run, count := nr, 1;
          } else if run == nr - count {
            count := count + 1;
          } else {
            FlushRun(run, count, was, NonZero(ptrs, p));
            run, count := nr, 1;
          }
        }
      }
      NonZeroReached(disk, ptrs, |ptrs|);
      if count > 0 {
        FlushRun(run, count, was, NonZero(ptrs, |ptrs|));
      }
    }

    /** The body of the loop in nvfuse_free_branches: everything below one pointer block,
        then the block itself. */
    method FreeBranch(nr: nat, depth: nat)
      requires sb.Valid() && nr != 0 && depth >= 1
      requires Tree(disk, nr, depth) && AllTaken(sb.bits[..], Reach(disk, nr, depth))
      modifies this`disk, sb, sb.bits, sb.groupFree, sb.nextBlock
      ensures sb.Valid() && Freed(old(sb.bits[..]), sb.bits[..], Reach(old(disk), nr, depth))
      ensures ChangedWithin(old(disk), disk, Reach(old(disk), nr, depth))
      decreases depth, 0
    {
      ghost var was, disk0 := sb.bits[..], disk;
      PointerBlock(disk0, nr, depth, was);
      ghost var kids := ReachAll(disk0, disk0[nr], depth - 1);
      ghost var volume := sb.Footprint();
      hide *;
      var row := FreeBranches(disk[nr], depth - 1);
      assert volume == {sb, sb.bits, sb.groupFree, sb.nextBlock};
      RowCleared(disk0, disk, kids, nr, row);
      disk := disk[nr := row];
      FreeOne(nr, was, kids);
    }

    /** Frees one more block. */
    method FreeOne(nr: nat, ghost was: seq<bool>, ghost kids: set<nat>)
      requires sb.Valid() && Freed(was, sb.bits[..], kids) && AllTaken(was, {nr}) && nr !in kids
      modifies sb, sb.bits, sb.groupFree, sb.nextBlock
      ensures sb.Valid() && Freed(was, sb.bits[..], {nr} + kids)
    {
      hide sb.Valid;
      hide IsData;
      sb.FreeBlocks(nr, 1);
    }

    /** nvfuse_free_branches. */
    method FreeBranches(ptrs: seq<nat>, depth: nat) returns (cleared: seq<nat>)
      requires sb.Valid() && Forest(disk, ptrs, depth) && AllTaken(sb.bits[..], ReachAll(disk, ptrs, depth))
      modifies this`disk, sb, sb.bits, sb.groupFree, sb.nextBlock
      ensures sb.Valid() && cleared == Zeroes(|ptrs|)
      ensures Freed(old(sb.bits[..]), sb.bits[..], ReachAll(old(disk), ptrs, depth))
      ensures ChangedWithin(old(disk), disk, ReachAll(old(disk), ptrs, depth))
      decreases depth, 1
    {
      hide sb.Valid;
      hide Reach, Tree, ReachAll, Forest, IsData, Freed, AllTaken, ChangedWithin;
      if depth == 0 {
        cleared := FreeData(ptrs);
        NothingChanged(disk, ReachAll(disk, ptrs, depth));
        return;
      }
      cleared := ptrs;
      ghost var was, disk0 := sb.bits[..], disk;
      NoBranch(disk, was, depth);
      assert ptrs[..0] == [];
      for p := 0 to |ptrs|
        invariant |cleared| == |ptrs| && forall i :: 0 <= i < |ptrs| ==> cleared[i] == if i < p then 0 else ptrs[i]
        invariant sb.Valid() && Freed(was, sb.bits[..], ReachAll(disk0, ptrs[..p], depth))
        invariant ChangedWithin(disk0, disk, ReachAll(disk0, ptrs[..p], depth))
      {
        var nr := cleared[p];
        ghost var mid, disk1 := sb.bits[..], disk;
        NextBranch(disk0, disk1, ptrs, p, depth, was, mid);
        if nr != 0 {
          cleared := cleared[p := 0];
          FreeBranch(nr, depth);
        } else {
          NoBranch(disk1, mid, depth);
        }
        BranchFreed(disk0, disk1, disk, ptrs, p, depth, was, mid, sb.bits[..]);
      }
      assert ptrs[..|ptrs|] == ptrs;
    }

    // --------------------------------------------------------------- truncation

    /** Frees the subtrees of the pointer block `nr`, the one at `path`, from slot `lo` on. */
    method FreeEnd(nr: nat, lo: nat, depth: nat, ghost path: seq<nat>)
      requires Valid() && path != [] && IsRange(Map(), path, lo, PTRS, depth) && nr == FilePtr(Map(), path)
      modifies this`disk, sb, sb.bits, sb.groupFree, sb.nextBlock
      ensures Valid() && Pruned(old(Map()), Map(), path, lo, PTRS)
      ensures Shrunk(old(Map()), Map(), old(sb.bits[..]), sb.bits[..])
    {
      ghost var f, was := Map(), sb.bits[..];
      ghost var volume := sb.Footprint();
      hide *;
      EndReady(f, path, lo, depth, was);
      var row := disk[nr];
      var cleared := FreeBranches(row[lo..], depth);
      assert volume == {sb, sb.bits, sb.groupFree, sb.nextBlock};
      EndFreed(f, path, lo, depth, nr, row, cleared, disk, was, sb.bits[..]);
      disk := disk[nr := row[..lo] + cleared];
    }

    /** Frees a branch that has been detached from slot `i` of the array at `path`. */
    method FreeTop(top: nat, depth: nat, ghost f: File, ghost path: seq<nat>, ghost i: nat)
      requires sb.Valid() && ino / INODES_PER_GROUP < sb.groups && AllTaken(sb.bits[..], FileReach(f))
      requires IsRange(f, path, i, i + 1, depth) && top == ArrayAt(f, path)[i] && Map() == Zeroed(f, path, i, i + 1)
      modifies this`disk, sb, sb.bits, sb.groupFree, sb.nextBlock
      ensures Valid() && Pruned(f, Map(), path, i, i + 1)
      ensures Shrunk(f, Map(), old(sb.bits[..]), sb.bits[..])
    {
      ghost var was, disk0 := sb.bits[..], disk;
      assert Freed(was, was, {}) && ChangedWithin(disk0, disk0, {});
      TopReady(f, path, i, depth, was);
      hide *;
      if top != 0 {
        var _ := FreeBranches([top], depth);
      }
      RangeFreed(f, Map(), path, i, i + 1, depth, was, sb.bits[..]);
    }

    /** Kills the whole subtree below one indirect slot of the inode. */
    method FreeSlot(i: nat)
      requires Valid() && DIRECT <= i < SLOTS
      modifies this, sb, sb.bits, sb.groupFree, sb.nextBlock
      ensures Valid() && Pruned(old(Map()), Map(), [], i, i + 1)
      ensures Shrunk(old(Map()), Map(), old(sb.bits[..]), sb.bits[..])
    {
      var nr := slots[i];
      ghost var f := Map();
      assert IsRange(f, [], i, i + 1, Level(i));
      assert slots[i := 0] == ZeroRow(slots, i, i + 1) && (nr == 0 ==> slots == slots[i := 0]);
      hide *;
      if nr != 0 {
        slots := slots[i := 0];
      }
      FreeTop(nr, Level(i), f, [], i);
    }

    /** Frees the direct blocks from slot `lo` on. */
    method FreeDirect(lo: nat)
      requires Valid() && lo <= DIRECT
      modifies this`slots, sb, sb.bits, sb.groupFree, sb.nextBlock
      ensures Valid() && Pruned(old(Map()), Map(), [], lo, DIRECT)
      ensures Shrunk(old(Map()), Map(), old(sb.bits[..]), sb.bits[..])
    {
      ghost var f, was := Map(), sb.bits[..];
      assert IsRange(f, [], lo, DIRECT, 0);
      RangeForest(f, [], lo, DIRECT, 0);
      TakenPart(was, FileReach(f), RangeReach(f, [], lo, DIRECT, 0));
      assert ArrayAt(f, []) == slots;
      hide IsTree, FileReach, Forest, Reach, Tree, IsRange, AllTaken, Freed, Pruned;
      hide sb.Valid;
      var cleared := FreeData(slots[lo..DIRECT]);
      slots := slots[..lo] + cleared + slots[DIRECT..];
      RangeFreed(f, Map(), [], lo, DIRECT, 0, was, sb.bits[..]);
    }

    /** nvfuse_get_branch: the pointers along `path`, up to the first that is zero. */
    method GetBranch(path: seq<nat>) returns (keys: seq<nat>, complete: bool)
      requires IsTree(Map()) && IsPath(path)
      ensures Branch(Map(), path, keys) && complete == (keys[|keys| - 1] != 0) && (complete ==> |keys| == |path|)
    {
      keys := [slots[path[0]]];
      FirstDown(Map(), path);
      hide IsTree, IsPath, FilePtr, Branch;
      while keys[|keys| - 1] != 0 && |keys| < |path|
        invariant 1 <= |keys| <= |path| && Branch(Map(), path, keys)
        decreases |path| - |keys|
      {
        LongerBranch(Map(), path, keys);
        var row := disk[keys[|keys| - 1]];
        keys := keys + [row[path[|keys|]]];
      }
      complete := keys[|keys| - 1] != 0;
    }

    /** The scan of all_zeroes, over the array of pointer block `nr`. */
    method AllZeroes(nr: nat, n: nat) returns (zero: bool)
      requires nr in disk && n <= |disk[nr]|
      ensures zero <==> forall i :: 0 <= i < n ==> disk[nr][i] == 0
    {
      for i := 0 to n
        invariant forall j :: 0 <= j < i ==> disk[nr][j] == 0
      {
        if disk[nr][i] != 0 {
          return false;
        }
      }
      zero := true;
    }

    /** The reading part of nvfuse_find_shared: trailing zero offsets are dropped, then the
        search moves up while nothing is to the left of the branch. */
    method FindCut(o: seq<nat>) returns (k: nat, p: nat, keys: seq<nat>)
      requires IsTree(Map()) && IsFull(o)
      ensures Shared(Map(), o, keys, p) && p < k
    {
      k := |o|;
      while k > 1 && o[k - 1] == 0
        invariant 1 <= k <= |o| && forall j :: k <= j < |o| ==> o[j] == 0
      {
        k := k - 1;
      }
      PrefixPath(o, k);
      hide IsTree, IsPath, FilePtr, SomethingLeft, LeftIsZero, NothingLeft;
      var complete;
      keys, complete := GetBranch(o[..k]);
      LongerPath(Map(), o, k, keys);
      p := |keys| - 1;
      ghost var m: nat := p;
      while p > 0
        invariant 0 <= p <= m && forall j :: p < j <= m ==> LeftIsZero(Map(), o, j)
      {
        assert keys[p - 1] == FilePtr(Map(), o[..p]);
        LeftSeen(Map(), o, p);
        var zero := AllZeroes(keys[p - 1], o[p]);
        if !zero {
          break;
        }
        p := p - 1;
      }
      assert keys[m] == FilePtr(Map(), o[..m + 1]);
      NothingLeftBelow(Map(), o, k, m, p);
    }

    /** nvfuse_find_shared: the rest of the branch is detached, unless it can be left to the
        clearing of the last array's end. */
    method FindShared(o: seq<nat>) returns (p: nat, keys: seq<nat>, cheat: bool, top: nat)
      requires IsTree(Map()) && IsFull(o)
      modifies this`slots, this`disk
      ensures p < |o| && Shared(old(Map()), o, keys, p) && (cheat ==> p > 0)
      ensures IsRange(old(Map()), o[..p], o[p], o[p] + 1, |o| - 1 - p)
      ensures cheat ==> Map() == old(Map())
      ensures !cheat ==> top == ArrayAt(old(Map()), o[..p])[o[p]] && Map() == Zeroed(old(Map()), o[..p], o[p], o[p] + 1)
    {
      var k;
      k, p, keys := FindCut(o);
      cheat, top := p == k - 1 && p > 0, 0;
      ghost var f := Map();
      CutSlot(f, o, keys, p);
      hide Shared, IsTree, IsRange, HasArray, ArrayAt, FilePtr;
      if !cheat {
        ghost var row0 := ArrayAt(f, o[..p]);
        assert row0[o[p] := 0] == ZeroRow(row0, o[p], o[p] + 1);
        if p == 0 {
          top := slots[o[0]];
          slots := slots[o[0] := 0];
        } else {
          var row := disk[keys[p - 1]];
          top := row[o[p]];
          row := row[o[p] := 0];
          disk := disk[keys[p - 1] := row];
        }
      }
    }

    /** Clears the end of the array at level `i` of the shared branch, the pointer block `nr`. */
    method TrimLevel(nr: nat, start: nat, depth: nat, ghost o: seq<nat>, ghost i: nat,
                     ghost f: File, ghost keys: seq<nat>, ghost p: nat, ghost all: bool, ghost was: seq<bool>)
      requires Valid() && Trimming(f, Map(), o, keys, p, i, all, was, sb.bits[..]) && 1 <= i <= p < |keys| && p < |o|
      requires nr == keys[i - 1] && depth == |o| - 1 - i && start == if all then o[i] + 1 else o[i]
      modifies this`disk, sb, sb.bits, sb.groupFree, sb.nextBlock
      ensures Valid() && Trimming(f, Map(), o, keys, p, i - 1, true, was, sb.bits[..])
    {
      ghost var f1, mid := Map(), sb.bits[..];
      hide *;
      TrimReady(f, f1, o, keys, p, i, all, was, mid);
      FreeEnd(nr, start, depth, o[..i]);
      TrimStep(f, f1, Map(), o, keys, p, i, all, was, mid, sb.bits[..]);
    }

    /** Clears the ends of the arrays on the shared branch, from the bottom up. */
    method TrimBranch(o: seq<nat>, keys: seq<nat>, shared: nat, cheat: bool, ghost f: File, ghost was: seq<bool>)
      requires Valid() && Trimming(f, Map(), o, keys, shared, shared, !cheat, was, sb.bits[..]) && (cheat ==> shared > 0)
      requires shared < |o| && shared < |keys|
      modifies this`disk, sb, sb.bits, sb.groupFree, sb.nextBlock
      ensures Valid() && Trimming(f, Map(), o, keys, shared, 0, true, was, sb.bits[..])
    {
      hide *;
      var partial := shared;
      ghost var all := !cheat;
      while partial > 0
        invariant Valid() && 0 <= partial <= shared && all == !(cheat && partial == shared)
        invariant Trimming(f, Map(), o, keys, shared, partial, all, was, sb.bits[..])
      {
        var last: int := o[partial];
        if cheat && partial == shared {
          last := last - 1;
        }
        TrimLevel(keys[partial - 1], last + 1, |o| - 1 - partial, o, partial, f, keys, shared, all, was);
        partial, all := partial - 1, true;
      }
    }

    /** Kills the detached top of the branch, if there is one. */
    method KillTop(o: seq<nat>, keys: seq<nat>, shared: nat, cheat: bool, top: nat, ghost f: File, ghost was: seq<bool>)
      requires sb.Valid() && ino / INODES_PER_GROUP < sb.groups && was == sb.bits[..] && AllTaken(was, FileReach(f))
      requires IsTree(f) && Shared(f, o, keys, shared) && IsRange(f, o[..shared], o[shared], o[shared] + 1, |o| - 1 - shared)
      requires cheat ==> Map() == f
      requires !cheat ==> top == ArrayAt(f, o[..shared])[o[shared]] && Map() == Zeroed(f, o[..shared], o[shared], o[shared] + 1)
      modifies this`disk, sb, sb.bits, sb.groupFree, sb.nextBlock
      ensures Valid() && Trimming(f, Map(), o, keys, shared, shared, !cheat, was, sb.bits[..])
    {
      assert shared < |o|;
      hide *;
      if !cheat {
        FreeTop(top, |o| - 1 - shared, f, o[..shared], o[shared]);
      }
      TrimStart(f, Map(), o, keys, shared, !cheat, was, sb.bits[..]);
    }

    /** Truncation inside the tree below an indirect slot: the shared branch is found, its
        top killed, and the ends of its arrays cleared. */
    method TruncateBranch(o: seq<nat>, ghost was: seq<bool>) returns (ghost p: nat)
      requires Valid() && IsFull(o) && was == sb.bits[..]
      modifies this, sb, sb.bits, sb.groupFree, sb.nextBlock
      ensures Valid() && p < |o| && NothingLeft(old(Map()), o, p) && (p > 0 ==> SomethingLeft(old(Map()), o, p))
      ensures CutSlots(old(Map()), Map(), o[..p + 1], o[0] + 1) && Shrunk(old(Map()), Map(), was, sb.bits[..])
    {
      ghost var f := Map();
      ghost var volume := sb.Footprint();
      hide sb.Valid;
      hide IsTree, IsFull, IsRange, Zeroed, ArrayAt, AllTaken, FileReach, Shared, Trimming, NothingLeft, SomethingLeft, CutSlots, Shrunk;
      var shared, keys, cheat, top := FindShared(o);
      assert volume == {sb, sb.bits, sb.groupFree, sb.nextBlock};
      p := shared;
      KillTop(o, keys, shared, cheat, top, f, was);
      TrimBounds(f, Map(), o, keys, p, was, sb.bits[..], !cheat);
      TrimBranch(o, keys, shared, cheat, f, was);
      TrimEnd(f, Map(), o, keys, p, was, sb.bits[..]);
    }

    /** Kills the remaining whole subtrees: the fall-through over the indirect slots. */
    method FreeIndirects(o0: nat, ghost f: File, ghost cut: seq<nat>, ghost was: seq<bool>)
      requires Valid() && o0 < SLOTS && cut != [] && cut[0] == o0 && Shrunk(f, Map(), was, sb.bits[..])
      requires CutSlots(f, Map(), cut, if o0 < DIRECT then DIRECT else o0 + 1)
      modifies this, sb, sb.bits, sb.groupFree, sb.nextBlock
      ensures Valid() && CutSlots(f, Map(), cut, SLOTS) && Shrunk(f, Map(), was, sb.bits[..])
    {
      assert DIRECT == 11 && SLOTS == 14;
      hide *;
      if o0 < 11 { FreeSlotOf(11, f, cut, was); }
      if o0 < 12 { FreeSlotOf(12, f, cut, was); }
      if o0 < 13 { FreeSlotOf(13, f, cut, was); }
    }

    method FreeSlotOf(i: nat, ghost f: File, ghost cut: seq<nat>, ghost was: seq<bool>)
      requires Valid() && DIRECT <= i < SLOTS && cut != [] && cut[0] < i
      requires CutSlots(f, Map(), cut, i) && Shrunk(f, Map(), was, sb.bits[..])
      modifies this, sb, sb.bits, sb.groupFree, sb.nextBlock
      ensures Valid() && CutSlots(f, Map(), cut, i + 1) && Shrunk(f, Map(), was, sb.bits[..])
    {
      ghost var f1, mid := Map(), sb.bits[..];
      hide *;
      FreeSlot(i);
      CutMoreSlots(f, f1, Map(), cut, i, i + 1);
      ShrunkTwice(f, f1, Map(), was, mid, sb.bits[..]);
    }

    /** Truncation among the direct blocks. */
    method TruncateDirect(lo: nat)
      requires Valid() && lo < DIRECT
      modifies this, sb, sb.bits, sb.groupFree, sb.nextBlock
      ensures Valid() && CutSlots(old(Map()), Map(), [lo], DIRECT)
      ensures Shrunk(old(Map()), Map(), old(sb.bits[..]), sb.bits[..])
    {
      ghost var f := Map();
      hide *;
      FreeDirect(lo);
      CutDirect(f, Map(), lo);
    }

    /** Everything at or after the path `o` goes. */
    method TruncateAt(o: seq<nat>, ghost was: seq<bool>) returns (ghost p: nat)
      requires Valid() && IsFull(o) && was == sb.bits[..]
      modifies this, sb, sb.bits, sb.groupFree, sb.nextBlock
      ensures Valid() && p < |o| && NothingLeft(old(Map()), o, p) && (p > 0 ==> SomethingLeft(old(Map()), o, p))
      ensures CutOff(old(Map()), Map(), o[..p + 1], 0, true) && Shrunk(old(Map()), Map(), was, sb.bits[..])
    {
      ghost var f := Map();
      assert |o| == 1 ==> o[0] < DIRECT && o[..1] == [o[0]];
      assert |o| > 1 ==> o[0] >= DIRECT;
      assert 1 <= |o| && o[0] < SLOTS && |f.slots| == SLOTS;
      hide *;
      if |o| == 1 {
        p := 0;
        NothingLeftOfSlot(f, o);
        TruncateDirect(o[0]);
      } else {
        p := TruncateBranch(o, was);
      }
      FreeIndirects(o[0], f, o[..p + 1], was);
      CutDone(f, Map(), o[..p + 1]);
    }

    /** __nvfuse_truncate_blocks. */
    method Truncate(offset: nat)
      requires Valid() && offset < S64
      modifies this, sb, sb.bits, sb.groupFree, sb.nextBlock
      ensures Valid() && Shrunk(old(Map()), Map(), old(sb.bits[..]), sb.bits[..])
      ensures var n := FirstDropped(offset);
        if 0 <= n < MAX_BLOCKS then
          MapsUpTo(old(Map()), Map(), n) && (Lean(old(Map())) ==> KeepsWhatIsNeeded(old(Map()), Map(), n) && Lean(Map()))
        else Map() == old(Map()) && sb.bits[..] == old(sb.bits[..])
      ensures CutsWhereItShould(offset) ==> KeptBelow(old(Map()), Map(), offset)
      ensures offset <= 17592186040320 ==>
        forall b :: 0 <= b < MAX_BLOCKS ==> Mapped(Map(), b) == if b * 4096 < offset then Mapped(old(Map()), b) else 0
      ensures |sb.bits[..]| == |old(sb.bits[..])| && FileReach(Map()) <= FileReach(old(Map()))
      ensures forall x :: 0 <= x < |sb.bits[..]| ==>
        sb.bits[..][x] == (old(sb.bits[..])[x] && (x in FileReach(old(Map())) ==> x in FileReach(Map())))
    {
      var iblock := FirstDropped(offset);
      var o := BlockToPath(iblock);
      ghost var f, was := Map(), sb.bits[..];
      assert IsTree(f) && |f.slots| == SLOTS;
      hide *;
      ShrunkNot(f, was);
      if |o| == 0 {
        if CutsWhereItShould(offset) { KeptWhereItShould(f, f, offset); }
        CutBelow(f, f, offset);
        ShrunkIs(f, f, was, was);
        return;
      }
      PathOfBlock(iblock);
      ghost var p := TruncateAt(o, was);
      CutIsTruncation(f, Map(), iblock, p);
      if CutsWhereItShould(offset) { KeptWhereItShould(f, Map(), offset); }
      CutBelow(f, Map(), offset);
      ShrunkIs(f, Map(), was, sb.bits[..]);
    }

    // --------------------------------------------------------------- allocation

    /** nvfuse_return_free_blocks. */
    method ReturnBlocks(blks: seq<nat>, ghost was: seq<bool>)
      requires sb.Valid() && Taken(was, sb.bits[..], blks)
      modifies sb, sb.bits, sb.groupFree, sb.nextBlock
      ensures sb.Valid() && sb.bits[..] == was && sb.freeBlocks == old(sb.freeBlocks) + |blks|
    {
      hide sb.Valid;
      hide IsData;
      for i := 0 to |blks|
        invariant sb.freeBlocks == old(sb.freeBlocks) + i
        invariant sb.Valid() && |was| == sb.bits.Length && forall b :: 0 <= b < |was| ==> sb.bits[b] == (was[b] || b in blks[i..])
      {
        StillTaken(blks, i);
        assert blks[i] in blks;
        sb.FreeBlocks(blks[i], 1);
      }
    }

    /** nvfuse_alloc_free_blocks: the pointer blocks and the first data block together,
        then the other data blocks; all or nothing. */
    method AllocFreeBlocks(ind: nat, count: nat) returns (ok: bool, blks: seq<nat>)
      requires sb.Valid() && ino / INODES_PER_GROUP < sb.groups && count >= 1
      modifies sb, sb.bits, sb.groupFree, sb.nextBlock
      ensures sb.Valid() && ok == (old(sb.freeBlocks) >= ind + count) && sb.freeBlocks == old(sb.freeBlocks) - |blks|
      ensures ok ==> |blks| == ind + count && Taken(old(sb.bits[..]), sb.bits[..], blks)
      ensures !ok ==> blks == [] && sb.bits[..] == old(sb.bits[..])
    {
      ghost var was := sb.bits[..];
      sb.FreeNonNegative();
      hide sb.Valid;
      hide Taken;
      blks := sb.AllocBlocks(ino, ind + 1);
      if |blks| != ind + 1 {
        ReturnBlocks(blks, was);
        return false, [];
      }
      if count - 1 > 0 {
        ghost var mid := sb.bits[..];
        sb.FreeNonNegative();
        var rest := sb.AllocBlocks(ino, count - 1);
        if |rest| != count - 1 {
          ReturnBlocks(rest, mid);
          ReturnBlocks(blks, was);
          return false, [];
        }
        TakenMore(was, mid, sb.bits[..], blks, rest);
        blks := blks + rest;
      }
      ok := true;
    }

    /** nvfuse_blks_to_allocate: how many data blocks fit into the array. */
    method BlksToAllocate(row: seq<nat>, at: nat, ind: nat, maxblocks: nat, boundary: nat) returns (count: nat)
      requires if ind > 0 then maxblocks >= 1 else at + boundary < |row| && row[at] == 0
      ensures 1 <= count <= AtLeastOne(maxblocks) && count <= boundary + 1
      ensures ind > 0 ==> count == Min(AtLeastOne(maxblocks), boundary + 1)
      ensures ind == 0 ==> AreFree(row, at, at + count) && (count == Min(AtLeastOne(maxblocks), boundary + 1) || row[at + count] != 0)
    {
      if ind > 0 {
        count := if maxblocks < boundary + 1 then maxblocks else boundary + 1;
        return;
      }
      count := 1;
      while count < maxblocks && count <= boundary && row[at + count] == 0
        invariant 1 <= count <= AtLeastOne(maxblocks) && count <= boundary + 1 && AreFree(row, at, at + count)
      {
        count := count + 1;
      }
    }

    /** Stores `data` into consecutive slots. */
    method StoreRun(row: seq<nat>, at: nat, data: seq<nat>) returns (r: seq<nat>)
      requires at + |data| <= |row|
      ensures r == Placed(row, at, data)
    {
      r := row;
      for i := 0 to |data|
        invariant |r| == |row| && forall j :: 0 <= j < |row| ==> r[j] == if at <= j < at + i then data[j - at] else row[j]
      {
        r := r[at + i := data[i]];
      }
    }

    /** The array of the n-th new pointer block: zeroed, then the next block of the chain,
        and in the last one all data blocks. */
    method NewArray(blks: seq<nat>, n: nat, ind: nat, at: nat) returns (row: seq<nat>)
      requires 1 <= n <= ind < |blks| <= ind + PTRS && at == 0
      ensures row == NewRow(blks[n - 1..], ind - n + 1)
    {
      row := Zeroes(PTRS);
      row := row[at := blks[n]];
      if n == ind {
        row := StoreRun(row, at, blks[n..]);
        assert blks[n - 1..][1..] == blks[n..];
      }
      assert row == NewRow(blks[n - 1..], ind - n + 1);
    }

    /** The loop of nvfuse_alloc_branch: fills the new pointer blocks. */
    method BuildBranch(blks: seq<nat>, ind: nat, offsets: seq<nat>)
      requires 1 <= ind < |blks| <= ind + PTRS && Fresh(blks) && |offsets| == ind && AllZero(offsets)
      modifies this`disk
      ensures Chained(disk, blks, ind) && Scribbled(old(disk), disk, Blocks(blks))
    {
      ghost var disk0 := disk;
      assert RowsSet(disk, blks, ind, 0);
      hide RowsSet, NewRow, Chained, Fresh, Blocks, Scribbled;
      StillScribbled(disk0, disk, blks);
      for n := 1 to ind + 1
        invariant Scribbled(disk0, disk, Blocks(blks)) && RowsSet(disk, blks, ind, n - 1)
      {
        var row := NewArray(blks, n, ind, offsets[n - 1]);
        RowSet(disk, blks, ind, n, row);
        ScribbledMore(disk0, disk, blks, n - 1, row);
        disk := disk[blks[n - 1] := row];
      }
      AllRowsChained(disk, blks, ind);
    }

    /** nvfuse_splice_branch: stores `data` at the end of the branch. */
    method Splice(keys: seq<nat>, at: nat, data: seq<nat>, ghost up: seq<nat>)
      requires HasArray(Map(), up) && |keys| == |up| + 1 && at + |data| <= |ArrayAt(Map(), up)|
      requires up != [] ==> keys[|up| - 1] == FilePtr(Map(), up)
      modifies this`slots, this`disk
      ensures Map() == WithArray(old(Map()), up, Placed(ArrayAt(old(Map()), up), at, data))
    {
      if up != [] { ArrayPresent(Map(), up); }
      assert ArrayAt(Map(), up) == if up == [] then slots else disk[keys[|up| - 1]];
      hide HasArray, FilePtr, Placed;
      if |keys| == 1 {
        slots := StoreRun(slots, at, data);
      } else {
        var row := StoreRun(disk[keys[|keys| - 2]], at, data);
        disk := disk[keys[|keys| - 2] := row];
      }
    }

    /** The allocated blocks go into free slots of an existing array. */
    method FillArray(l: int, path: seq<nat>, keys: seq<nat>, blks: seq<nat>, ghost was: seq<bool>)
      requires sb.Valid() && ino / INODES_PER_GROUP < sb.groups && IsTree(Map()) && AllTaken(was, FileReach(Map()))
      requires 0 <= l < MAX_BLOCKS && path == BlockToPath(l) && IsPath(path) && Branch(Map(), path, keys) && |keys| == |path|
      requires Taken(was, sb.bits[..], blks) && 1 <= |blks| <= Boundary(l) + 1
      requires forall b :: l <= b < l + |blks| ==> Mapped(Map(), b) == 0
      modifies this`slots, this`disk
      ensures Valid() && Appended(old(Map()), Map(), was, sb.bits[..], l, |blks|, blks)
    {
      ghost var f := Map();
      ghost var m := |path| - 1;
      RunRange(f, l, path, keys);
      FreeRunOf(f, l, |blks|);
      hide *;
      TakenAreFresh(was, sb.bits[..], blks, FileReach(f));
      Splice(keys, path[|path| - 1], blks, path[..m]);
      ArrayGrows(f, Map(), l, blks);
      ArrayScribbled(f, Map(), path[..m], Placed(ArrayAt(f, path[..m]), path[m], blks));
      GrownIsAppended(f, Map(), was, sb.bits[..], l, |blks|, blks);
    }

    /** Fills the new pointer blocks, then stores the pointer to the first of them. */
    method AttachChain(path: seq<nat>, keys: seq<nat>, blks: seq<nat>) returns (ghost g: File)
      requires EndsFree(Map(), path, keys) && |path| - |keys| < |blks| <= |path| - |keys| + PTRS
      requires Fresh(blks) && Blocks(blks) !! FileReach(Map())
      modifies this`slots, this`disk
      ensures Attached(old(Map()), g, Map(), path, |keys|, blks)
    {
      hide HasSlot, FilePtr, AllZero, Below, IsPath, FileReach, Chained, Scribbled, Blocks, SameOn, FileStored, HasArray,
        ArrayAt, WithArray, Placed, Fresh, IsTree, EndsFree, Attached;
      ghost var f := Map();
      ChainReady(f, path, keys);
      var k, ind: nat := |keys|, |path| - |keys|;
      BuildBranch(blks, ind, path[k..]);
      g := Map();
      BranchBuilt(f, g, path, keys, blks);
      Splice(keys, path[k - 1], [blks[0]], path[..k - 1]);
      ChainAttached(f, g, path, k, blks);
    }

    /** The allocated blocks become a new branch with data at its end. */
    method AttachBranch(l: int, path: seq<nat>, keys: seq<nat>, blks: seq<nat>, ghost was: seq<bool>)
      requires sb.Valid() && ino / INODES_PER_GROUP < sb.groups && IsTree(Map()) && AllTaken(was, FileReach(Map()))
      requires 0 <= l < MAX_BLOCKS && path == BlockToPath(l) && IsPath(path) && Branch(Map(), path, keys)
      requires |keys| < |path| && keys[|keys| - 1] == 0 && AppendsAt(Map(), path)
      requires var ind := |path| - |keys|; Taken(was, sb.bits[..], blks) && ind < |blks| <= ind + Boundary(l) + 1
      modifies this`slots, this`disk
      ensures Valid() && Appended(old(Map()), Map(), was, sb.bits[..], l, |blks| - (|path| - |keys|), blks)
    {
      ghost var f := Map();
      hide sb.Valid;
      hide IsTree, BlockToPath, IsPath, AppendsAt, FileReach, Blocks, Taken, AllTaken, Boundary, Fresh, Branch, Appended,
        EndsFree, Attached;
      BranchReady(f, l, path, keys);
      TakenAreFresh(was, sb.bits[..], blks, FileReach(f));
      ghost var volume := sb.Footprint();
      ghost var g := AttachChain(path, keys, blks);
      assert volume == {sb, sb.bits, sb.groupFree, sb.nextBlock};
      BranchAppended(f, g, Map(), l, path, keys, |keys|, blks, was, sb.bits[..]);
    }

    /** How many blocks to allocate from `l` on. */
    method CountToAllocate(l: int, path: seq<nat>, keys: seq<nat>, maxblocks: nat) returns (count: nat)
      requires IsTree(Map()) && 0 <= l < MAX_BLOCKS && path == BlockToPath(l) && IsPath(path) && Branch(Map(), path, keys)
      requires keys[|keys| - 1] == 0 && (|keys| < |path| ==> maxblocks >= 1)
      ensures UnmappedRun(Map(), l, count, maxblocks)
    {
      ghost var f := Map();
      if |keys| == |path| {
        SlotsOfRun(f, l, path, keys);
        hide BlockToPath, IsTree, Mapped, Boundary, FilePtr, Branch;
        var row := if |keys| == 1 then slots else disk[keys[|keys| - 2]];
        count := BlksToAllocate(row, path[|path| - 1], 0, maxblocks, Boundary(l));
        CountedSlots(f, l, path, row, count, maxblocks);
      } else {
        hide BlockToPath, IsTree, Mapped, Boundary, FilePtr, Branch, UnmappedRun;
        count := BlksToAllocate([], 0, |path| - |keys|, maxblocks, Boundary(l));
        CountedBranch(f, l, path, keys, count, maxblocks);
      }
    }

    /** The allocating part of nvfuse_get_block: nvfuse_alloc_branch and nvfuse_splice_branch. */
    method Extend(l: int, path: seq<nat>, keys: seq<nat>, maxblocks: nat) returns (ok: bool, num: nat, blks: seq<nat>)
      requires Valid() && 0 <= l < MAX_BLOCKS && path == BlockToPath(l) && IsPath(path) && Branch(Map(), path, keys)
      requires keys[|keys| - 1] == 0 && (|keys| < |path| ==> maxblocks >= 1) && AppendsAt(Map(), path)
      modifies this`slots, this`disk, sb, sb.bits, sb.groupFree, sb.nextBlock
      ensures Valid() && UnmappedRun(old(Map()), l, num, maxblocks)
      ensures ok == (old(sb.freeBlocks) >= |path| - |keys| + num) && sb.freeBlocks == old(sb.freeBlocks) - |blks|
      ensures ok ==> |blks| == |path| - |keys| + num
      ensures ok ==> Appended(old(Map()), Map(), old(sb.bits[..]), sb.bits[..], l, num, blks)
      ensures !ok ==> blks == [] && Map() == old(Map()) && sb.bits[..] == old(sb.bits[..])
    {
      ghost var f, was := Map(), sb.bits[..];
      num := CountToAllocate(l, path, keys, maxblocks);
      assert |keys| <= |path| && 1 <= num <= Boundary(l) + 1;
      ghost var volume := sb.Footprint();
      hide sb.Valid;
      hide IsTree, BlockToPath, IsPath, AppendsAt, FileReach, Taken, AllTaken, Boundary, Branch, Appended, UnmappedRun;
      ok, blks := AllocFreeBlocks(|path| - |keys|, num);
      if ok {
        if |keys| == |path| {
          RunOf(f, l, num, maxblocks);
          FillArray(l, path, keys, blks, was);
        } else {
          AttachBranch(l, path, keys, blks, was);
        }
      }
      assert volume == {sb, sb.bits, sb.groupFree, sb.nextBlock};
    }

    /** Counts the blocks that follow block `l` on disk as well as in the file. */
    method CountMapped(l: int, path: seq<nat>, keys: seq<nat>, maxblocks: nat) returns (count: nat)
      requires IsTree(Map()) && 0 <= l < MAX_BLOCKS && path == BlockToPath(l) && IsPath(path) && Branch(Map(), path, keys)
      requires |keys| == |path|
      ensures MappedRun(Map(), l, count, maxblocks) && Mapped(Map(), l) == keys[|keys| - 1]
    {
      ghost var f := Map();
      SlotsOfRun(f, l, path, keys);
      assert |path| >= 1;
      hide BlockToPath, IsTree, Mapped, Boundary, FilePtr, Branch, IsPath, HoldsRun;
      var row := if |keys| == 1 then slots else disk[keys[|keys| - 2]];
      HoldsAt(f, l, path, row, 0);
      count := CountConsecutive(row, path[|path| - 1], maxblocks, Boundary(l));
      CountedMapped(f, l, path, row, count, maxblocks);
    }

    /** The loop that maps more blocks. */
    method CountConsecutive(row: seq<nat>, at: nat, maxblocks: nat, boundary: nat) returns (count: nat)
      requires at + boundary < |row|
      ensures 1 <= count <= Min(AtLeastOne(maxblocks), boundary + 1)
      ensures forall i :: at <= i < at + count ==> row[i] == row[at] + (i - at)
      ensures count == Min(AtLeastOne(maxblocks), boundary + 1) || row[at + count] != row[at] + count
    {
      count := 1;
      while count < maxblocks && count <= boundary
        invariant 1 <= count <= Min(AtLeastOne(maxblocks), boundary + 1)
        invariant forall i :: at <= i < at + count ==> row[i] == row[at] + (i - at)
      {
        var blk := row[at + count];
        if blk != row[at] + count {
          break;
        }
        count := count + 1;
      }
    }

    /** nvfuse_get_block. The blocks taken are returned as `blks`; `run` is how many data blocks are
        wanted. */
    method GetBlock(l: int, maxblocks: nat, create: bool)
      returns (err: int, num: nat, pblock: nat, blks: seq<nat>, ghost run: nat)
      requires Valid()
      requires create && 0 <= l < MAX_BLOCKS && Mapped(Map(), l) == 0 ==>
        (PathOfBlock(l); AppendsAt(Map(), BlockToPath(l)) && (Missing(Map(), BlockToPath(l)) > 0 ==> maxblocks >= 1))
      modifies this`slots, this`disk, sb, sb.bits, sb.groupFree, sb.nextBlock
      ensures Valid()
      ensures !(0 <= l < MAX_BLOCKS) ==> err == -1
      ensures 0 <= l < MAX_BLOCKS && Mapped(old(Map()), l) != 0 ==>
        err == 0 && pblock == Mapped(old(Map()), l) && MappedRun(old(Map()), l, num, maxblocks) && blks == []
      ensures 0 <= l < MAX_BLOCKS && Mapped(old(Map()), l) == 0 && !create ==> err == 0 && num == 0 && pblock == 0
      ensures 0 <= l < MAX_BLOCKS && Mapped(old(Map()), l) == 0 && create ==>
        (PathOfBlock(l);
         var need := Missing(old(Map()), BlockToPath(l)) + run;
         && UnmappedRun(old(Map()), l, run, maxblocks) && err == (if old(sb.freeBlocks) >= need then 0 else -1)
         && (err == 0 ==> num == run && |blks| == need && pblock == Mapped(Map(), l) != 0))
      ensures 0 <= l < MAX_BLOCKS && Mapped(old(Map()), l) == 0 && create && err == 0 ==>
        Appended(old(Map()), Map(), old(sb.bits[..]), sb.bits[..], l, num, blks)
      ensures sb.freeBlocks == old(sb.freeBlocks) - |blks| && (err != 0 ==> num == 0 && pblock == 0 && blks == [])
      ensures blks == [] ==> Map() == old(Map()) && sb.bits[..] == old(sb.bits[..])
      ensures 0 <= l < MAX_BLOCKS && Mapped(old(Map()), l) != 0 ==>
        forall b :: l <= b < l + num ==> Mapped(old(Map()), b) == pblock + (b - l)
      ensures 0 <= l < MAX_BLOCKS && Mapped(old(Map()), l) == 0 ==>
        forall b :: 0 <= b < MAX_BLOCKS && !(l <= b < l + num) ==> Mapped(Map(), b) == Mapped(old(Map()), b)
    {
      err, num, pblock, blks, run := 0, 0, 0, [], 0;
      var path := BlockToPath(l);
      if |path| == 0 {
        return -1, 0, 0, [], 0;
      }
      PathOfBlock(l);
      ghost var f, was := Map(), sb.bits[..];
      assert |f.slots| == SLOTS && f.slots == slots && f.disk == disk;
      hide *;
      var keys, complete := GetBranch(path);
      EndOfBranch(f, l, path, keys);
      MissingOnBranch(f, path, keys);
      if complete {
        num := CountMapped(l, path, keys, maxblocks);
        pblock := keys[|keys| - 1];
        MappedRunIs(f, l, num, maxblocks);
      } else if create {
        var ok;
        ok, num, blks := Extend(l, path, keys, maxblocks);
        run := num;
        UnmappedRunIs(f, l, num, maxblocks);
        if ok {
          pblock := blks[|path| - |keys|];
          AppendedIs(f, Map(), was, sb.bits[..], l, num, blks);
          FirstAppended(f, Map(), sb.bits[..], l, num, blks);
        } else {
          err, num, blks := -1, 0, [];
        }
      }
    }

    // ------------------------------------------------------- files without holes

    /** Appending at the end of a file without holes: it is always allowed, and the file stays
        without holes. It ends with the array of the first block. */
    method Append(n: nat, maxblocks: nat) returns (err: int, num: nat)
      requires Valid() && HoleFree(Map(), n) && n <= MAX_BLOCKS && maxblocks >= 1
      modifies this`slots, this`disk, sb, sb.bits, sb.groupFree, sb.nextBlock
      ensures Valid() && HoleFree(Map(), n + num) && n + num <= MAX_BLOCKS && (Lean(old(Map())) ==> Lean(Map()))
      ensures n < MAX_BLOCKS ==> num == if err == 0 then Min(maxblocks, Boundary(n) + 1) else 0
      ensures n < MAX_BLOCKS ==> err == if old(sb.freeBlocks) >= Need(old(Map()), n, maxblocks) then 0 else -1
      ensures n == MAX_BLOCKS ==> err == -1 && num == 0
    {
      ghost var f, was := Map(), sb.bits[..];
      if n < MAX_BLOCKS {
        AppendAllowed(f, n);
        EndOfFile(f, n);
        NeedIs(f, n, maxblocks);
      }
      hide *;
      ghost var run;
      var pblock, blks;
      err, num, pblock, blks, run := GetBlock(n, maxblocks, true);
      if n < MAX_BLOCKS {
        RunAtEnd(f, n, run, maxblocks);
        if err == 0 {
          AppendedAtEnd(f, Map(), was, sb.bits[..], n, num, blks);
        }
      }
    }

    /** The size of a file after a direct write of `count` blocks behind its end
        (nvfuse_writefile_directio_core): all of them are counted, however many were mapped. The file
        has no holes if and only if they fit into the array of the first one. */
    method DirectWrite(n: nat, count: nat) returns (err: int, size: nat)
      requires Valid() && HoleFree(Map(), n) && n + count <= MAX_BLOCKS && count >= 1
      modifies this`slots, this`disk, sb, sb.bits, sb.groupFree, sb.nextBlock
      ensures Valid() && (err != 0 ==> size == n && HoleFree(Map(), n))
      ensures err == 0 ==> size == n + count && (HoleFree(Map(), size) <==> count <= Boundary(n) + 1)
    {
      var num;
      err, num := Append(n, count);
      size := if err == 0 then n + count else n;
      assert HoleFree(Map(), n + num);
      hide *;
      if err == 0 && num < count {
        HoleFreeOnce(Map(), n + num, n + count);
      }
    }

    /** The loop of nvfuse_fallocate: blocks from `start` on are looked up or appended until `count` are
        there, or there is no space. */
    method Preallocate(start: nat, count: nat, ghost n: nat) returns (curr: nat)
      requires Valid() && HoleFree(Map(), n) && start <= n <= MAX_BLOCKS
      modifies this`slots, this`disk, sb, sb.bits, sb.groupFree, sb.nextBlock
      ensures Valid() && start <= curr <= start + count && HoleFree(Map(), if curr < n then n else curr)
      ensures curr < start + count ==> curr == MAX_BLOCKS || (curr < MAX_BLOCKS && sb.freeBlocks < Need(Map(), curr, start + count - curr))
    {
      ghost var end := n;
      curr := start;
      var remain := count;
      while remain > 0
        invariant Valid() && curr + remain == start + count && start <= curr
        invariant curr <= end <= MAX_BLOCKS && HoleFree(Map(), end) && end == if curr < n then n else curr
        decreases remain
      {
        var num;
        num, end := AllocateRun(curr, remain, end);
        if num == 0 {
          break;
        }
        curr, remain := curr + num, remain - num;
      }
    }

    /** One round of that loop. */
    method AllocateRun(curr: nat, remain: nat, ghost end: nat) returns (num: nat, ghost end': nat)
      requires Valid() && HoleFree(Map(), end) && curr <= end <= MAX_BLOCKS && remain >= 1
      modifies this`slots, this`disk, sb, sb.bits, sb.groupFree, sb.nextBlock
      ensures Valid() && HoleFree(Map(), end') && end' <= MAX_BLOCKS && num <= remain
      ensures if curr < end then end' == end && 1 <= num && curr + num <= end else end' == curr + num
      ensures num == 0 ==> curr == MAX_BLOCKS || (curr < MAX_BLOCKS && sb.freeBlocks < Need(Map(), curr, remain))
    {
      hide *;
      ghost var f, was := Map(), sb.bits[..];
      RunReady(f, curr, end);
      if curr < MAX_BLOCKS { NeedIs(f, curr, remain); }
      var err, pblock, blks;
      ghost var run;
      err, num, pblock, blks, run := GetBlock(curr, remain, true);
      end' := if curr < end then end else end + num;
      if err == 0 && curr == end { AppendedAtEnd(f, Map(), was, sb.bits[..], curr, num, blks); }
      RunDone(f, curr, end, remain, num, run);
    }

    /** Truncating a file without holes. */
    method Shorten(offset: nat, ghost n: nat)
      requires Valid() && HoleFree(Map(), n) && offset < S64
      modifies this, sb, sb.bits, sb.groupFree, sb.nextBlock
      ensures Valid() && (Lean(old(Map())) ==> Lean(Map()))
      ensures HoleFree(Map(), if 0 <= FirstDropped(offset) < MAX_BLOCKS && FirstDropped(offset) < n then FirstDropped(offset) else n)
    {
      ghost var f := Map();
      hide *;
      Truncate(offset);
      if 0 <= FirstDropped(offset) < MAX_BLOCKS {
        TruncateKeepsHoleFree(f, Map(), n, FirstDropped(offset));
      }
    }
  }
}
