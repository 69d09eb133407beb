/** Cutting subtrees off a file: clearing a range of one pointer array. */
module FilePrune {
  import opened PointerTree
  import opened FileTree

  /** `path` leads to a pointer array; the empty path to the inode's own slots. */
  ghost predicate HasArray(f: File, path: seq<nat>) {
    IsTree(f) && (path == [] || (IsPath(path) && Below(path) >= 1 && FilePtr(f, path) != 0))
  }

  lemma ArrayPresent(f: File, path: seq<nat>)
    requires HasArray(f, path) && path != []
    ensures var nr := FilePtr(f, path); var e := Below(path) - 1;
      nr in f.disk && |f.disk[nr]| == PTRS && nr in FileReach(f) &&
      Forest(f.disk, f.disk[nr], e) && nr !in ReachAll(f.disk, f.disk[nr], e) &&
      ReachAll(f.disk, f.disk[nr], e) <= FileReach(f)
  {
    HasSlotIff(f, path);
    SlotReached(f, path[0]);
  }

  ghost function ArrayAt(f: File, path: seq<nat>): seq<nat>
    requires HasArray(f, path)
  {
    if path == [] then f.slots else
      ArrayPresent(f, path);
      f.disk[FilePtr(f, path)]
  }

  ghost function WithArray(f: File, path: seq<nat>, row: seq<nat>): File
    requires HasArray(f, path)
  {
    if path == [] then File(row, f.disk) else File(f.slots, f.disk[FilePtr(f, path) := row])
  }

  /** Slots lo..hi of the array at `path` have `e` levels of pointer blocks below them. */
  ghost predicate IsRange(f: File, path: seq<nat>, lo: nat, hi: nat, e: nat) {
    && HasArray(f, path) && lo <= hi <= |ArrayAt(f, path)|
    && if path == [] then (forall i :: lo <= i < hi ==> Level(i) == e) else e == Below(path) - 1
  }

  function ZeroRow(row: seq<nat>, lo: nat, hi: nat): (r: seq<nat>)
    requires lo <= hi <= |row|
  {
    row[..lo] + seq(hi - lo, _ => 0) + row[hi..]
  }

  ghost function Zeroed(f: File, path: seq<nat>, lo: nat, hi: nat): File
    requires HasArray(f, path) && lo <= hi <= |ArrayAt(f, path)|
  {
    WithArray(f, path, ZeroRow(ArrayAt(f, path), lo, hi))
  }

  /** Everything below slots lo..hi of the array at `path`. */
  ghost function RangeReach(f: File, path: seq<nat>, lo: nat, hi: nat, e: nat): set<nat>
    requires IsRange(f, path, lo, hi, e)
  {
    ReachAll(f.disk, ArrayAt(f, path)[lo..hi], e)
  }

  /** `q` runs through one of the slots lo..hi of the array at `path`. */
  ghost predicate Through(q: seq<nat>, path: seq<nat>, lo: nat, hi: nat) {
    path <= q && |path| < |q| && lo <= q[|path|] < hi
  }

  /** Paths through the range lead nowhere any more, all others lead where they did. */
  ghost predicate Pruned(f: File, f': File, path: seq<nat>, lo: nat, hi: nat) {
    |f.slots| == SLOTS == |f'.slots| &&
    forall q :: IsPath(q) ==> FilePtr(f', q) == if Through(q, path, lo, hi) then 0 else FilePtr(f, q)
  }

  // -------------------------------------------------------------- slot by slot

  lemma SlotPath(f: File, path: seq<nat>, lo: nat, hi: nat, e: nat, i: nat)
    requires IsRange(f, path, lo, hi, e) && lo <= i < hi
    ensures IsPath(path + [i]) && Below(path + [i]) == e && FilePtr(f, path + [i]) == ArrayAt(f, path)[i]
    ensures path != [] ==> Holder(f, path + [i]) == FilePtr(f, path)
    ensures HasSlot(f, path + [i])
  {
    var p := path + [i];
    if path != [] {
      ArrayPresent(f, path);
      assert p[1..] == path[1..] + [i];
      assert p[1..|p| - 1] == path[1..];
      assert p[1..][..|p| - 2] == path[1..];
      PtrSplit(f.disk, f.slots[path[0]], p[1..]);
    }
  }

  /** The range is a forest of its own, inside the file. */
  lemma RangeForest(f: File, path: seq<nat>, lo: nat, hi: nat, e: nat)
    requires IsRange(f, path, lo, hi, e)
    ensures Forest(f.disk, ArrayAt(f, path)[lo..hi], e) && RangeReach(f, path, lo, hi, e) <= FileReach(f)
    ensures path != [] ==> FilePtr(f, path) !in RangeReach(f, path, lo, hi, e)
  {
    var row := ArrayAt(f, path);
    var part := row[lo..hi];
    if path != [] { ArrayPresent(f, path); }
    hide Reach, Tree;
    if path == [] {
      forall i, j | 0 <= i < j < |part| ensures Reach(f.disk, part[i], e) !! Reach(f.disk, part[j], e) {
        assert SlotReach(f, lo + i) !! SlotReach(f, lo + j);
        assert Level(lo + i) == e && Level(lo + j) == e;
      }
      forall i | 0 <= i < |part|
        ensures Tree(f.disk, part[i], e) && Reach(f.disk, part[i], e) <= FileReach(f)
      {
        assert Tree(f.disk, row[lo + i], Level(lo + i));
        SlotReached(f, lo + i);
        assert Level(lo + i) == e;
      }
    } else {
      forall i | 0 <= i < |part|
        ensures Tree(f.disk, part[i], e) && Reach(f.disk, part[i], e) <= ReachAll(f.disk, row, e)
      {
        assert part[i] == row[lo + i];
        KidsReached(f.disk, row, e, lo + i);
      }
      forall i, j | 0 <= i < j < |part| ensures Reach(f.disk, part[i], e) !! Reach(f.disk, part[j], e) {
        assert Reach(f.disk, row[lo + i], e) !! Reach(f.disk, row[lo + j], e);
      }
    }
  }

  lemma RangeGrows(disk: Disk, row: seq<nat>, lo: nat, hi: nat, e: nat)
    requires lo < hi <= |row|
    ensures ReachAll(disk, row[lo..hi], e) == ReachAll(disk, row[lo..hi - 1], e) + Reach(disk, row[hi - 1], e)
  {
    hide Reach;
    var a, b := row[lo..hi - 1], row[lo..hi];
    forall x | x in ReachAll(disk, b, e) ensures x in ReachAll(disk, a, e) + Reach(disk, row[hi - 1], e) {
      var i :| 0 <= i < |b| && x in Reach(disk, b[i], e);
      assert i < |a| ==> a[i] == b[i];
    }
    forall x | x in ReachAll(disk, a, e) ensures x in ReachAll(disk, b, e) {
      var i :| 0 <= i < |a| && x in Reach(disk, a[i], e);
      assert a[i] == b[i];
    }
    assert b[|b| - 1] == row[hi - 1];
  }

  /** Clearing one more slot: the slot is still where it was ... */
  lemma NextSlot(f: File, f1: File, path: seq<nat>, lo: nat, hi: nat, e: nat)
    requires IsRange(f, path, lo, hi, e) && lo < hi && IsTree(f1) && Pruned(f, f1, path, lo, hi - 1)
    ensures var p := path + [hi - 1];
      HasSlot(f1, p) && FilePtr(f1, p) == ArrayAt(f, path)[hi - 1] && Below(p) == e &&
      (path != [] ==> Holder(f1, p) == FilePtr(f, path))
  {
    var p := path + [hi - 1];
    SlotPath(f, path, lo, hi, e, hi - 1);
    hide Reach, Tree, IsTree, ArrayAt, PtrAt;
    assert FilePtr(f1, p) == FilePtr(f, p);
    if path != [] {
      assert FilePtr(f1, path) == FilePtr(f, path);
      assert p[1..|p| - 1] == path[1..];
    }
    HasSlotIff(f1, p);
  }

  /** ... and clearing it completes the longer range. */
  lemma NextStored(f: File, path: seq<nat>, lo: nat, hi: nat, p: seq<nat>)
    requires HasArray(f, path) && lo < hi <= |ArrayAt(f, path)| && p == path + [hi - 1]
    requires var f1 := Zeroed(f, path, lo, hi - 1);
      HasSlot(f1, p) && (path != [] ==> Holder(f1, p) == FilePtr(f, path))
    ensures FileStored(Zeroed(f, path, lo, hi - 1), p, 0) == Zeroed(f, path, lo, hi)
  {
    hide Holder, HasArray, FilePtr, HasSlot, IsTree;
    var row := ArrayAt(f, path);
    assert ZeroRow(row, lo, hi - 1)[hi - 1 := 0] == ZeroRow(row, lo, hi);
  }

  /** The subtree below it has not been touched. */
  lemma NextReach(f: File, path: seq<nat>, lo: nat, hi: nat, e: nat)
    requires IsRange(f, path, lo, hi, e) && lo < hi
    ensures var f1, nr := Zeroed(f, path, lo, hi - 1), ArrayAt(f, path)[hi - 1];
      Reach(f1.disk, nr, e) == Reach(f.disk, nr, e)
  {
    var f1, row := Zeroed(f, path, lo, hi - 1), ArrayAt(f, path);
    RangeForest(f, path, lo, hi, e);
    RangeGrows(f.disk, row, lo, hi, e);
    assert row[lo..hi][hi - 1 - lo] == row[hi - 1];
    assert path != [] ==> f1.disk == f.disk[FilePtr(f, path) := ZeroRow(row, lo, hi - 1)];
    assert Tree(f.disk, row[hi - 1], e);
    hide Reach, Tree, Forest, HasArray, FilePtr, Zeroed, ZeroRow;
    Frame(f.disk, f1.disk, row[hi - 1], e);
  }

  /** Clearing a range removes exactly what hangs below it. */
  lemma {:induction false} PruneRange(f: File, path: seq<nat>, lo: nat, hi: nat, e: nat)
    requires IsRange(f, path, lo, hi, e)
    ensures var f' := Zeroed(f, path, lo, hi);
      IsTree(f') && FileReach(f') == FileReach(f) - RangeReach(f, path, lo, hi, e) && Pruned(f, f', path, lo, hi)
    decreases hi
  {
    hide Reach, ReachAll, Tree, IsTree, FilePtr, FileStored, FileReach, Pruned, HasArray, HasSlot, Zeroed, ArrayAt;
    if lo == hi {
      PruneNothing(f, path, lo, e);
    } else {
      var f1, p := Zeroed(f, path, lo, hi - 1), path + [hi - 1];
      PruneRange(f, path, lo, hi - 1, e);
      RangeGrows(f.disk, ArrayAt(f, path), lo, hi, e);
      NextReach(f, path, lo, hi, e);
      NextSlot(f, f1, path, lo, hi, e);
      NextStored(f, path, lo, hi, p);
      PruneNext(f, f1, path, lo, hi, p);
    }
  }

  lemma PruneNothing(f: File, path: seq<nat>, lo: nat, e: nat)
    requires IsRange(f, path, lo, lo, e)
    ensures Zeroed(f, path, lo, lo) == f && RangeReach(f, path, lo, lo, e) == {} && Pruned(f, f, path, lo, lo) && IsTree(f)
  {
    var row := ArrayAt(f, path);
    assert ZeroRow(row, lo, lo) == row;
    if path != [] {
      ArrayPresent(f, path);
      assert f.disk[FilePtr(f, path) := row] == f.disk;
    }
  }

  lemma PruneNext(f: File, f1: File, path: seq<nat>, lo: nat, hi: nat, p: seq<nat>)
    requires lo < hi && p == path + [hi - 1] && HasSlot(f1, p) && Pruned(f, f1, path, lo, hi - 1)
    ensures var f' := FileStored(f1, p, 0);
      IsTree(f') && FileReach(f') == FileReach(f1) - Reach(f1.disk, FilePtr(f1, p), Below(p)) && Pruned(f, f', path, lo, hi)
  {
    hide Reach, Tree, IsTree, FilePtr, FileStored, FileReach;
    var f' := FileStored(f1, p, 0);
    ZeroTree(f1.disk, Below(p));
    FileStore(f1, p, 0);
    StoredSlots(f1, p, 0);
    forall q: seq<nat> | IsPath(q) ensures FilePtr(f', q) == if Through(q, path, lo, hi) then 0 else FilePtr(f, q) {
      FileStorePtr(f1, p, 0, q);
      ZeroPtr(f1.disk, if p <= q then q[|p|..] else []);
      assert p <= q <==> path <= q && |path| < |q| && q[|path|] == hi - 1;
    }
  }

  lemma StoredSlots(f: File, p: seq<nat>, v: nat)
    requires HasSlot(f, p)
    ensures |FileStored(f, p, v).slots| == SLOTS
  {
  }

  lemma ZeroTree(disk: Disk, d: nat)
    ensures Tree(disk, 0, d) && Reach(disk, 0, d) == {}
  {
  }

  lemma ZeroPtr(disk: Disk, path: seq<nat>)
    ensures PtrAt(disk, 0, path) == 0
  {
  }

  /** Pointer arrays changed at most in the blocks `s`. */
  ghost predicate ChangedWithin(was: Disk, now: Disk, s: set<nat>) {
    now.Keys == was.Keys && forall x :: x in was && x !in s ==> now[x] == was[x]
  }

  /** The arrays of blocks that were cut off may have changed as well. */
  lemma PruneAndScribble(f: File, f': File, path: seq<nat>, lo: nat, hi: nat, e: nat)
    requires IsRange(f, path, lo, hi, e)
    requires var g := Zeroed(f, path, lo, hi);
      f'.slots == g.slots && ChangedWithin(g.disk, f'.disk, RangeReach(f, path, lo, hi, e))
    ensures IsTree(f') && FileReach(f') == FileReach(f) - RangeReach(f, path, lo, hi, e)
    ensures Pruned(f, f', path, lo, hi) && ChangedWithin(f.disk, f'.disk, FileReach(f))
  {
    var g, gone := Zeroed(f, path, lo, hi), RangeReach(f, path, lo, hi, e);
    PruneRange(f, path, lo, hi, e);
    assert ChangedWithin(f.disk, g.disk, FileReach(f)) by {
      if path != [] { ArrayPresent(f, path); }
    }
    RangeForest(f, path, lo, hi, e);
    hide Zeroed, IsTree, FileReach, FilePtr, RangeReach, IsRange;
    assert SameOn(g.disk, f'.disk, FileReach(g));
    FileFrame(g, f'.disk);
    assert f' == File(g.slots, f'.disk);
  }
}
