/** The block map of one inode: fourteen slots over a disk of pointer blocks. */
module FileTree {
  import opened PointerTree

  const DIRECT: nat := 11      // DIRECT_BLOCKS; slots 11, 12, 13 are the indirect ones
  const SLOTS: nat := 14       // TINDIRECT_BLOCKS + 1

  /** Levels of pointer blocks below slot `i` of the inode. */
  function Level(i: nat): nat {
    if i < DIRECT then 0 else i - (DIRECT - 1)
  }

  datatype File = File(slots: seq<nat>, disk: Disk)

  ghost function SlotReach(f: File, i: nat): set<nat>
    requires i < |f.slots|
  {
    Reach(f.disk, f.slots[i], Level(i))
  }

  /** All blocks of the file, data and pointer blocks. */
  ghost function FileReach(f: File): set<nat> {
    set i, x | 0 <= i < |f.slots| && x in SlotReach(f, i) :: x
  }

  /** No block is reached twice from the inode. */
  ghost predicate IsTree(f: File) {
    && |f.slots| == SLOTS
    && (forall i :: 0 <= i < SLOTS ==> Tree(f.disk, f.slots[i], Level(i)))
    && forall i, j :: 0 <= i < j < SLOTS ==> SlotReach(f, i) !! SlotReach(f, j)
  }

  /** A path into the file: an inode slot, then offsets into pointer blocks. */
  ghost predicate IsPath(path: seq<nat>) {
    path != [] && path[0] < SLOTS && |path| <= 1 + Level(path[0]) && InRange(path[1..])
  }

  ghost function FilePtr(f: File, path: seq<nat>): nat
    requires |f.slots| == SLOTS && IsPath(path)
  {
    PtrAt(f.disk, f.slots[path[0]], path[1..])
  }

  /** Number of pointer levels below the slot at the end of `path`. */
  ghost function Below(path: seq<nat>): nat
    requires IsPath(path)
  {
    Level(path[0]) - (|path| - 1)
  }

  /** The pointer block that holds the slot at the end of `path`; 0 when there is none,
      or when it is a slot of the inode itself. */
  ghost function Holder(f: File, path: seq<nat>): nat
    requires |f.slots| == SLOTS && IsPath(path)
  {
    if |path| == 1 then 0 else PtrAt(f.disk, f.slots[path[0]], path[1..|path| - 1])
  }

  ghost predicate HasSlot(f: File, path: seq<nat>) {
    IsTree(f) && IsPath(path) &&
    (|path| == 1 || (Holder(f, path) != 0 && Holder(f, path) in f.disk && |f.disk[Holder(f, path)]| == PTRS))
  }

  /** The file after storing `v` into the slot at the end of `path`. */
  ghost function FileStored(f: File, path: seq<nat>, v: nat): File
    requires HasSlot(f, path)
  {
    if |path| == 1 then File(f.slots[path[0] := v], f.disk)
    else File(f.slots, Stored(f.disk, Holder(f, path), path[|path| - 1], v))
  }

  lemma SlotReached(f: File, i: nat)
    requires i < |f.slots|
    ensures SlotReach(f, i) <= FileReach(f)
  {
  }

  lemma {:induction false} HasSlotIff(f: File, path: seq<nat>)
    requires IsTree(f) && IsPath(path)
    ensures HasSlot(f, path) <==> |path| == 1 || Holder(f, path) != 0
    ensures |path| > 1 && Holder(f, path) != 0 ==> Holder(f, path) in SlotReach(f, path[0])
    ensures FilePtr(f, path) != 0 ==> HasSlot(f, path) && FilePtr(f, path) in FileReach(f)
    ensures Tree(f.disk, FilePtr(f, path), Below(path)) && Reach(f.disk, FilePtr(f, path), Below(path)) <= SlotReach(f, path[0])
  {
    var nr, d := f.slots[path[0]], Level(path[0]);
    PtrReached(f.disk, nr, d, path[1..]);
    SlotReached(f, path[0]);
    if |path| > 1 {
      PtrReached(f.disk, nr, d, path[1..|path| - 1]);
      PtrSplit(f.disk, nr, path[1..]);
      assert path[1..][..|path| - 2] == path[1..|path| - 1];
    }
  }

  /** The last step of a path goes through its holder. */
  lemma {:induction false} PtrSplit(disk: Disk, nr: nat, path: seq<nat>)
    requires path != []
    ensures var h, i := PtrAt(disk, nr, path[..|path| - 1]), path[|path| - 1];
      PtrAt(disk, nr, path) == if h == 0 || h !in disk || i >= |disk[h]| then 0 else disk[h][i]
    decreases |path|
  {
    if |path| > 1 {
      if nr != 0 && nr in disk && path[0] < |disk[nr]| {
        PtrSplit(disk, disk[nr][path[0]], path[1..]);
        assert path[..|path| - 1][1..] == path[1..][..|path| - 2];
      }
    }
  }

  // ----------------------------------------------- one store, seen from the file

  /** Replacing what hangs below one inode slot. */
  lemma SlotReplaced(f: File, f': File, k: nat)
    requires IsTree(f) && |f'.slots| == SLOTS && k < SLOTS && f'.slots == f.slots[k := f'.slots[k]]
    requires SameOn(f.disk, f'.disk, FileReach(f) - SlotReach(f, k))
    requires Tree(f'.disk, f'.slots[k], Level(k)) && SlotReach(f', k) !! FileReach(f) - SlotReach(f, k)
    ensures IsTree(f') && FileReach(f') == FileReach(f) - SlotReach(f, k) + SlotReach(f', k)
  {
    hide Reach, Tree;
    forall j | 0 <= j < SLOTS && j != k
      ensures Tree(f'.disk, f'.slots[j], Level(j)) && SlotReach(f', j) == SlotReach(f, j) <= FileReach(f) - SlotReach(f, k)
    {
      SlotReached(f, j);
      assert SlotReach(f, j) !! SlotReach(f, k);
      Frame(f.disk, f'.disk, f.slots[j], Level(j));
    }
    SlotsUnion(f, f', k);
  }

  lemma SlotsUnion(f: File, f': File, k: nat)
    requires IsTree(f) && |f'.slots| == SLOTS && k < SLOTS
    requires forall j :: 0 <= j < SLOTS && j != k ==> SlotReach(f', j) == SlotReach(f, j)
    ensures FileReach(f') == FileReach(f) - SlotReach(f, k) + SlotReach(f', k)
  {
    hide SlotReach;
    forall x | x in FileReach(f) - SlotReach(f, k) ensures x in FileReach(f') {
      var j :| 0 <= j < SLOTS && x in SlotReach(f, j);
      assert x in SlotReach(f', j);
    }
    forall x | x in FileReach(f') ensures x in FileReach(f) - SlotReach(f, k) + SlotReach(f', k) {
      var j :| 0 <= j < SLOTS && x in SlotReach(f', j);
      if j != k {
        assert x in SlotReach(f, j);
        assert SlotReach(f, j) !! SlotReach(f, k);
      }
    }
  }

  /** Storing `v` at the end of `path` swaps the blocks below the slot for those of `v`. */
  lemma FileStore(f: File, path: seq<nat>, v: nat)
    requires HasSlot(f, path)
    requires Tree(f.disk, v, Below(path)) && Reach(f.disk, v, Below(path)) !! FileReach(f)
    ensures IsTree(FileStored(f, path, v))
    ensures FileReach(FileStored(f, path, v))
      == FileReach(f) - Reach(f.disk, FilePtr(f, path), Below(path)) + Reach(f.disk, v, Below(path))
    ensures |path| > 1 ==> Holder(f, path) in SlotReach(f, path[0])
  {
    hide Reach, Tree;
    var k, f' := path[0], FileStored(f, path, v);
    SlotReached(f, k);
    if |path| > 1 {
      HasSlotIff(f, path);
      assert path[1..][..|path| - 2] == path[1..|path| - 1];
      Store(f.disk, f.slots[k], Level(k), path[1..], v);
    }
    SlotReplaced(f, f', k);
  }

  /** ... and every path that does not run through the slot leads where it did. */
  lemma FileStorePtr(f: File, path: seq<nat>, v: nat, q: seq<nat>)
    requires HasSlot(f, path) && IsPath(q)
    requires Tree(f.disk, v, Below(path)) && Reach(f.disk, v, Below(path)) !! FileReach(f)
    ensures IsTree(FileStored(f, path, v))
    ensures FilePtr(FileStored(f, path, v), q)
      == if path <= q then PtrAt(f.disk, v, q[|path|..]) else FilePtr(f, q)
  {
    hide Reach, Tree;
    FileStore(f, path, v);
    var k, f' := path[0], FileStored(f, path, v);
    SlotReached(f, k);
    if |path| > 1 {
      assert path[1..][..|path| - 2] == path[1..|path| - 1];
      if q[0] == k {
        StorePtr(f.disk, f.slots[k], Level(k), path[1..], v, q[1..]);
        assert path <= q <==> path[1..] <= q[1..];
        assert path <= q ==> q[1..][|path| - 1..] == q[|path|..];
      } else {
        assert SlotReach(f, q[0]) !! SlotReach(f, k);
        FramePtr(f.disk, f'.disk, f.slots[q[0]], Level(q[0]), q[1..]);
      }
    }
  }

  /** Pointer blocks outside the file may change freely. */
  lemma FileFrame(f: File, disk': Disk)
    requires IsTree(f) && SameOn(f.disk, disk', FileReach(f))
    ensures IsTree(File(f.slots, disk')) && FileReach(File(f.slots, disk')) == FileReach(f)
    ensures forall q :: IsPath(q) ==> FilePtr(File(f.slots, disk'), q) == FilePtr(f, q)
  {
    hide Reach, Tree;
    var f' := File(f.slots, disk');
    forall j | 0 <= j < SLOTS
      ensures Tree(disk', f'.slots[j], Level(j)) && SlotReach(f', j) == SlotReach(f, j)
    {
      SlotReached(f, j);
      Frame(f.disk, disk', f.slots[j], Level(j));
    }
    SlotsUnion(f, f', 0);
    SlotReached(f, 0);
    forall q | IsPath(q) ensures FilePtr(f', q) == FilePtr(f, q) {
      SlotReached(f, q[0]);
      FramePtr(f.disk, disk', f.slots[q[0]], Level(q[0]), q[1..]);
    }
  }
}
