/** The compact table of a directory and its hash index (nvfuse_api.c, nvfuse_core.c). The
    index is taken as the finite map that the B+tree stores. */
module Directory {

  const PER_BLOCK: nat := 32             // DIR_ENTRY_NUM: 4096 / 128
  const ENTRY_SIZE: nat := 128
  const CLUSTER_SIZE: nat := 4096
  const OFFSET_LIMIT: nat := 0x4000_0000 // two of the 32 bits of an index item count collisions
  const U32: nat := 0x1_0000_0000
  const MAX_FILES: nat := 0x7FFF_FFFF    // MAX_FILES_PER_DIR

  datatype Flag = Empty | Used | Deleted
  datatype Dentry = Dentry(flag: Flag, ino: nat, name: string)

  const NO_ENTRY: Dentry := Dentry(Empty, 0, "")

  /** nvfuse_dir_is_invalid. */
  predicate IsInvalid(d: Dentry) {
    d.flag == Empty || d.flag == Deleted
  }

  /** Slots 0..links are in use, the others are not. */
  ghost predicate Compact(slots: seq<Dentry>, links: nat) {
    && links <= |slots| && |slots| % PER_BLOCK == 0
    && (forall i :: 0 <= i < links ==> slots[i].flag == Used)
    && (forall i :: links <= i < |slots| ==> IsInvalid(slots[i]))
  }

  /** Names are unique, and so are the non-zero keys of all but "." and "..". */
  ghost predicate NamesOk(slots: seq<Dentry>, links: nat, key: string -> nat) {
    && 2 <= links <= |slots| && slots[0].name == "." && slots[1].name == ".."
    && (forall i, j :: 0 <= i < j < links ==> slots[i].name != slots[j].name)
    && (forall i, j :: 2 <= i < j < links ==> key(slots[i].name) != key(slots[j].name))
    && (forall i :: 2 <= i < links ==> key(slots[i].name) != 0)
  }

  ghost predicate IsKeyOf(slots: seq<Dentry>, links: nat, key: string -> nat, k: nat) {
    exists i :: 2 <= i < links <= |slots| && key(slots[i].name) == k
  }

  /** The index holds, for each ordinary name and nothing else, its slot cut to 30 bits. */
  ghost predicate Indexed(slots: seq<Dentry>, links: nat, key: string -> nat, index: map<nat, nat>) {
    && links <= |slots|
    && (forall i :: 2 <= i < links ==> key(slots[i].name) in index && index[key(slots[i].name)] == i % OFFSET_LIMIT)
    && (forall k :: k in index ==> IsKeyOf(slots, links, key, k))
  }

  /** The index maps each ordinary name to precisely its slot. */
  ghost predicate Exact(slots: seq<Dentry>, links: nat, key: string -> nat, index: map<nat, nat>) {
    links <= |slots| && forall i :: 2 <= i < links ==> key(slots[i].name) in index && index[key(slots[i].name)] == i
  }

  /** It does so exactly for directories of at most 2^30 entries. */
  lemma ExactIff(slots: seq<Dentry>, links: nat, key: string -> nat, index: map<nat, nat>)
    requires Indexed(slots, links, key, index)
    ensures Exact(slots, links, key, index) <==> links <= OFFSET_LIMIT
  {
    if links > OFFSET_LIMIT {
      assert index[key(slots[OFFSET_LIMIT].name)] == 0;
    }
  }

  /** What a reader makes of an index item: 0 when names collided. */
  function ReadItem(item: nat): nat {
    if item / OFFSET_LIMIT != 0 then 0 else item % OFFSET_LIMIT
  }

  /** A slot has been stored under key `k`: a reader gets it, cut to 30 bits, unless the key was there
      before; the count of collisions has two bits. All other items are as before. */
  ghost predicate ItemSet(was: map<nat, nat>, now: map<nat, nat>, k: nat, offset: nat) {
    && now.Keys == was.Keys + {k} && (forall j :: j in now && j != k ==> now[j] == was[j])
    && ReadItem(now[k]) == (if k in was then 0 else offset % OFFSET_LIMIT)
    && now[k] / OFFSET_LIMIT == if k in was then (was[k] / OFFSET_LIMIT + 1) % 4 else 0
  }

  /** Key `k` has been given up once: it goes when there was no collision. */
  ghost predicate ItemDropped(was: map<nat, nat>, now: map<nat, nat>, k: nat) {
    if k !in was then now == was
    else if was[k] < OFFSET_LIMIT then now == was - {k}
    else now == was[k := was[k] - OFFSET_LIMIT]
  }

  /** Storing a slot and giving it up again leaves the index as it was, for a key that was not there, and for one
      with fewer than three collisions leaves the count as it was. */
  lemma SetThenDrop(was: map<nat, nat>, mid: map<nat, nat>, now: map<nat, nat>, k: nat, offset: nat)
    requires ItemSet(was, mid, k, offset) && ItemDropped(mid, now, k)
    ensures k !in was ==> now == was && mid[k] == offset % 0x4000_0000
    ensures k in was && was[k] < 0xC000_0000 ==> k in now && now[k] / 0x4000_0000 == was[k] / 0x4000_0000 && now.Keys == was.Keys
    ensures forall j :: j in was && j != k ==> j in now && now[j] == was[j]
  {
  }

  /** The collision count has two bits. */
  lemma CountWraps(c: nat)
    ensures c * OFFSET_LIMIT % U32 / OFFSET_LIMIT == c % 4 && ReadItem(c * OFFSET_LIMIT % U32) == 0
  {
    var q, r := c / 4, c % 4;
    LowBits(q, r * OFFSET_LIMIT);
    assert r == 0 || r == 1 || r == 2 || r == 3;
  }

  lemma LowBits(q: nat, low: nat)
    requires low < U32
    ensures (q * U32 + low) % U32 == low
  {
  }

  /** The slot of `name`, found by looking at every entry; `links` when there is none. */
  ghost function Scan(slots: seq<Dentry>, links: nat, name: string): (i: nat)
    requires links <= |slots|
    ensures i <= links && (i < links ==> slots[i].name == name) && forall j :: 0 <= j < i ==> slots[j].name != name
  {
    if links == 0 then 0
    else
      var i := Scan(slots, links - 1, name);
      if i < links - 1 then i else if slots[links - 1].name == name then links - 1 else links
  }

  lemma ScanIs(slots: seq<Dentry>, links: nat, key: string -> nat, name: string, i: nat)
    requires NamesOk(slots, links, key) && i < links && slots[i].name == name
    ensures Scan(slots, links, name) == i
  {
    var j := Scan(slots, links, name);
    assert j <= i;
  }

  /** "." and "..", and no other entries, are those of the directory's own inode. */
  ghost predicate OwnEntries(slots: seq<Dentry>, links: nat, self: nat) {
    links <= |slots| && forall i :: 0 <= i < links ==> (slots[i].ino == self <==> i < 2)
  }

  /** Rounding up to whole blocks. */
  function BlocksOf(links: nat): nat {
    (links + PER_BLOCK - 1) / PER_BLOCK
  }

  /** The blocks of the directory are just enough for its entries. */
  ghost predicate SizeOk(n: nat, size: nat, links: nat) {
    size == BlocksOf(links) * CLUSTER_SIZE && n * ENTRY_SIZE == size
  }

  class Dir {
    const key: string -> nat      // nvfuse_dir_hash
    const self: nat               // i_ino
    var slots: seq<Dentry>        // the directory blocks
    var links: nat                // i_links_count
    var ptr: int                  // i_ptr
    var size: nat                 // i_size
    var index: map<nat, nat>

    ghost predicate Valid()
      reads this
    {
      && Compact(slots, links) && NamesOk(slots, links, key) && Indexed(slots, links, key, index)
      && OwnEntries(slots, links, self) && ptr == links - 1 && SizeOk(|slots|, size, links) && links <= MAX_FILES
    }

    /** nvfuse_make_first_directory: "." and ".." in the first block, both for the directory itself. */
    constructor (key: string -> nat, self: nat)
      ensures Valid() && links == 2 && this.key == key && this.self == self
    {
      this.key, this.self := key, self;
      slots := [Dentry(Used, self, "."), Dentry(Used, self, "..")] + seq(PER_BLOCK - 2, _ => NO_ENTRY);
      links, ptr, size, index := 2, 1, CLUSTER_SIZE, map[];
    }

    /** One more directory block, zeroed. */
    method GrowBlock()
      modifies this`slots, this`size
      ensures slots == old(slots) + seq(PER_BLOCK, _ => NO_ENTRY) && size == old(size) + CLUSTER_SIZE
    {
      slots, size := slots + seq(PER_BLOCK, _ => NO_ENTRY), size + CLUSTER_SIZE;
    }

    /** The inner loop of nvfuse_find_empty_dentry: one block, starting behind `entry` and
        wrapping around. */
    method SearchBlock(lblock: nat, entry: int) returns (found: bool, entry': int)
      requires Compact(slots, links) && (lblock + 1) * PER_BLOCK <= |slots| && -1 <= entry < PER_BLOCK - 1
      requires lblock * PER_BLOCK + entry + 1 <= links
      ensures found == (links < (lblock + 1) * PER_BLOCK)
      ensures found ==> 0 <= entry' < PER_BLOCK && lblock * PER_BLOCK + entry' == links
    {
      entry' := entry;
      for n := 0 to PER_BLOCK
        invariant entry' == if entry + n < PER_BLOCK then entry + n else entry + n - PER_BLOCK
        invariant links > lblock * PER_BLOCK + if entry + n < PER_BLOCK then entry + n else PER_BLOCK - 1
      {
        entry' := entry' + 1;
        if entry' == PER_BLOCK {
          entry' := 0;
        }
        if IsInvalid(slots[lblock * PER_BLOCK + entry']) {
          return true, entry';
        }
      }
      found := false;
    }

    /** nvfuse_find_empty_dentry: the slot behind the last one in use, in a new block if the
        others are full. */
    method FindEmpty() returns (slot: nat)
      requires Compact(slots, links) && links >= 2 && SizeOk(|slots|, size, links)
      modifies this`slots, this`size
      ensures slot == links < |slots| && Compact(slots, links)
      ensures SizeOk(|slots|, size, links + 1)
      ensures slots[..links] == old(slots)[..links]
    {
      var lblock, entry: int := (links - 1) / PER_BLOCK, (links - 1) % PER_BLOCK;
      ghost var slots0 := slots;
      BlockOfLast(links);
      if size / ENTRY_SIZE == links {
        // every slot is in use: no block to search, so a new one is made and searched
        entry, lblock := -1, size / ENTRY_SIZE / PER_BLOCK;
        GrowBlock();
      } else if entry == PER_BLOCK - 1 {
        entry := -1;
      }
      var found := false;
      var blocks := size / ENTRY_SIZE / PER_BLOCK;
      var i := 0;
      ghost var slots1, size1 := slots, size;
      assert slots1[..links] == slots0[..links];
      assert blocks * PER_BLOCK == |slots| && links < |slots| && size1 / CLUSTER_SIZE == blocks;
      while i < blocks && !found
        invariant 0 <= i <= blocks && slots == slots1 && size == size1 && Compact(slots, links)
        invariant found ==> 0 <= entry < PER_BLOCK && lblock * PER_BLOCK + entry == links
        invariant !found ==> i <= lblock < blocks && -1 <= entry < PER_BLOCK - 1
        invariant !found ==> lblock * PER_BLOCK + entry + 1 <= links
        decreases !found, blocks - i
      {
        found, entry := SearchBlock(lblock, entry);
        if !found {
          entry, lblock := -1, lblock + 1;
          if lblock == size / CLUSTER_SIZE {
            lblock := 0;
          }
          i := i + 1;
        }
      }
      slot := lblock * PER_BLOCK + entry;
    }

    // ------------------------------------------------------------------ the index

    /** nvfuse_set_dir_indexing: a new key gets the slot, cut to 30 bits; for a key that is there
        already readers get 0 from now on, and its collision count goes up (modulo 4). */
    method SetIndex(name: string, offset: nat)
      modifies this`index
      ensures ItemSet(old(index), index, key(name), offset)
    {
      var k := key(name);
      if k in index {
        var c := index[k] / OFFSET_LIMIT + 1;
        CountWraps(c);
        index := index[k := c * OFFSET_LIMIT % U32];
      } else {
        index := index[k := offset % OFFSET_LIMIT];
      }
    }

    /** nvfuse_get_dir_indexing. */
    method GetIndex(name: string) returns (found: bool, offset: nat)
      ensures if name == "." || name == ".." then found && offset == 0
        else found == (key(name) in index) && (found ==> offset == ReadItem(index[key(name)]))
      ensures found && name != "." && name != ".." ==> offset == if index[key(name)] < 0x4000_0000 then index[key(name)] else 0
    {
      if name == "." || name == ".." {
        return true, 0;
      }
      var k := key(name);
      if k !in index {
        return false, 0;
      }
      var c := index[k] / OFFSET_LIMIT;
      found, offset := true, if c != 0 then 0 else index[k] % OFFSET_LIMIT;
    }

    /** nvfuse_del_dir_indexing: a key without collisions goes; a missing one changes nothing. */
    method DelIndex(name: string)
      modifies this`index
      ensures ItemDropped(old(index), index, key(name))
    {
      var k := key(name);
      if k !in index {
        return;
      }
      var c := index[k] / OFFSET_LIMIT;
      if c == 0 {
        index := index - {k};
      } else {
        index := index[k := (c - 1) * OFFSET_LIMIT + index[k] % OFFSET_LIMIT];
      }
    }

    // ------------------------------------------------------------------ lookups

    /** nvfuse_find_existing_dentry: from the slot the index names, or from the start. The
        result is a u32, so that "not found" is the largest one. It is right for every name in
        a directory of any size: a slot cut to 30 bits only makes the scan start earlier. */
    method FindExisting(name: string) returns (found: nat)
      requires Valid()
      ensures found == if Scan(slots, links, name) < links then Scan(slots, links, name) else U32 - 1
    {
      hide NamesOk, Indexed, Scan;
      var known, offset := GetIndex(name);
      if !known {
        offset := 0;
      }
      StartsBefore(slots, links, key, index, name);
      assert Scan(slots, links, name) < links ==> offset <= Scan(slots, links, name);
      var i := offset;
      while i < size / ENTRY_SIZE
        invariant offset <= i && forall j :: offset <= j < i && j < links ==> slots[j].name != name
        decreases size / ENTRY_SIZE - i
      {
        if slots[i].flag == Used && slots[i].name == name {
          ScanIs(slots, links, key, name, i);
          return i;
        }
        i := i + 1;
      }
      found := U32 - 1;
    }

    /** nvfuse_lookup_bptree: through the index alone. A slot of 0 is taken for a collision, and
        an entry with another name for an inconsistency. */
    method Lookup(name: string) returns (r: Found)
      requires Valid()
      ensures r == LookedUp(slots, links, key, index, name)
    {
      ItemsInRange(slots, links, key, index, name);
      var known, slot := GetIndex(name);
      if !known {
        return Absent;
      }
      if slot == 0 {
        return Collision;
      }
      r := if slots[slot].flag == Used && slots[slot].name == name then Slot(slot) else Inconsistent;
    }

    // --------------------------------------------------------------- create, remove

    /** The directory part of nvfuse_createfile, for the new inode `ino`: whether the name is there already
        is not asked. The directory stays in order exactly when neither the name nor its key is in use
        (and the inode is not the directory's own). */
    method Create(name: string, ino: nat) returns (res: int)
      requires Valid()
      modifies this`slots, this`links, this`ptr, this`size, this`index
      ensures res == if 1 <= |name| < 116 && old(links) < MAX_FILES then 0 else -1
      ensures res != 0 ==> Valid() && links == old(links) && slots == old(slots) && index == old(index)
      ensures res == 0 ==> links == old(links) + 1 <= |slots|
      ensures res == 0 ==> slots[..links] == old(slots[..links]) + [Dentry(Used, ino, name)]
      ensures res == 0 ==>
        (Valid() <==> Scan(old(slots), old(links), name) == old(links) && key(name) != 0 && key(name) !in old(index) && ino != self)
      ensures res == 0 && Valid() ==> (Exact(slots, links, key, index) <==> old(links) < OFFSET_LIMIT)
    {
      hide Compact, NamesOk, Indexed, Scan, SizeOk, OwnEntries;
      if |name| < 1 || |name| >= 116 {
        return -1;
      }
      if links == MAX_FILES {
        return -1;
      }
      ghost var slots0, links0, index0 := slots, links, index;
      TwoAtLeast(slots, links, key);
      var slot := FindEmpty();
      ghost var slots1 := slots;
      links := links + 1;
      ptr := slot;
      slots := slots[slot := Dentry(Used, ino, name)];
      SetIndex(name, ptr);
      res := 0;
      NewEntry(slots0, slots1, links0, name, ino);
      NewOwn(slots0, slots1, links0, self, name, ino);
      if Scan(slots0, links0, name) == links0 && key(name) != 0 && key(name) !in index0 {
        assert index == index0[key(name) := links0 % OFFSET_LIMIT];
        Created(slots0, slots1, links0, key, index0, name, ino);
        ExactIff(slots, links, key, index);
      } else {
        NotFresh(slots0, slots1, links0, key, index0, name, ino);
      }
    }

    /** The directory part of nvfuse_rmfile and nvfuse_rmdir (`rmdir`): the last entry moves into the gap
        (nvfuse_shrink_dentry), and the last block goes with its last entry. `target` is what the
        inode of the entry shows.

        The test for a missing name compares an unsigned number with 0, so a missing name goes on to
        read a block that no directory has. "." and ".." are entries for the directory itself, whose
        inode is locked at this point: reading it again waits for a lock that the caller holds. */
    method Remove(name: string, rmdir: bool, target: Target) returns (outcome: Outcome)
      requires Valid()
      modifies this`slots, this`links, this`ptr, this`size, this`index
      ensures Valid()
      ensures var i := Scan(old(slots), old(links), name);
        && (outcome.Outside? <==> i == old(links)) && (outcome.Outside? ==> outcome.block == 0x7FF_FFFF)
        && (outcome.Stuck? <==> name == "." || name == "..")
        // rmdir takes directories without entries other than the root, rmfile takes everything but directories
        && (outcome.Removed? <==> 2 <= i < old(links) && (if rmdir then target.isDir && !target.isRoot && target.links <= 2 else !target.isDir))
        && (!outcome.Removed? ==> slots == old(slots) && links == old(links) && index == old(index))
      // the entry is gone, and the last one is in its place
      ensures var i, n := Scan(old(slots), old(links), name), old(links);
        outcome.Removed? ==> i < n == links + 1 <= |old(slots)| && slots[..links] == old(slots)[..n][i := old(slots)[n - 1]][..n - 1]
    {
      hide Compact, NamesOk, Indexed, Scan, SizeOk, GapClosed, OwnEntries;
      TwoAtLeast(slots, links, key);
      ghost var i := Scan(slots, links, name);
      var slot := FindExisting(name);
      SlotInside(|slots|, size, links, i, slot);
      TwoFirst(slots, links, key, name);
      if slot < 0 {
        return Refused;
      }
      if (slot / PER_BLOCK) * CLUSTER_SIZE >= size {
        return Outside(slot / PER_BLOCK);
      }
      OwnAt(slots, links, self, slot);
      if slots[slot].ino == self {
        return Stuck;
      }
      if rmdir {
        if target.isRoot {
          return Refused;
        }
        if !target.isDir {
          return Refused;
        }
        if target.links > 2 {
          return Refused;
        }
      } else if target.isDir {
        return Refused;
      }
      ScanFinds(slots, links, name);
      Detach(name, slot);
      outcome := Outcome.Removed;
    }

    /** The common end of nvfuse_rmfile and nvfuse_rmdir. */
    method Detach(name: string, slot: nat)
      requires Valid() && 2 <= slot < links && slots[slot].name == name
      modifies this`slots, this`links, this`ptr, this`size, this`index
      ensures Valid() && links == old(links) - 1 <= |slots|
      ensures slots[..links] == Closed(old(slots[..links]), slot)
    {
      hide Compact, NamesOk, Indexed, Closed, SizeOk, GapClosed, OwnEntries;
      ghost var slots0, links0, index0 := slots, links, index;
      TwoAtLeast(slots, links, key);
      DelIndexed(slots0, links0, key, index0, slot);
      CloseGap(name, slot);
      links, ptr := links - 1, links - 2;
      RemovedKeeps(slots0, links0, key, index0, slot, slots, index);
      RemovedOwn(slots0, links0, key, index0, slot, slots, index, self);
      SizeShrinks(|slots|, size, links0);
      if links * ENTRY_SIZE % CLUSTER_SIZE == 0 {
        DropLast(slots, links, key, index);
        DropLastOwn(slots, links, self);
        slots, size := slots[..|slots| - PER_BLOCK], size - CLUSTER_SIZE;
      }
    }

    /** Deletes slot `slot` and moves the last entry there, in the table and in the index. */
    method CloseGap(name: string, slot: nat)
      requires slot < links <= |slots| && slots[slot].name == name
      requires var k, l := key(name), key(slots[links - 1].name);
        && (k in index ==> index[k] < OFFSET_LIMIT) && (l in index ==> index[l] < OFFSET_LIMIT)
        && (slot != links - 1 && k in index ==> k != l)
      modifies this`slots, this`index
      ensures GapClosed(old(slots), old(index), slots, index, slot, links - 1, key)
    {
      hide GapClosed, ItemDropped, ItemSet;
      ghost var slots0, index0 := slots, index;
      DelIndex(name);
      DroppedIs(index0, index, key(name));
      slots := slots[slot := slots[slot].(flag := Deleted)];
      if slot != links - 1 {
        var last := slots[links - 1];
        slots := slots[slot := last];
        slots := slots[links - 1 := last.(flag := Deleted)];
        ghost var index1 := index;
        DelIndex(last.name);
        DroppedIs(index1, index, key(last.name));
        ghost var index2 := index;
        SetIndex(last.name, slot);
        SetIs(index2, index, key(last.name), slot);
      }
      GapClosedBy(slots0, index0, slot, links - 1, key);
    }
  }

  /** What a lookup through the index says. */
  datatype Found = Slot(slot: nat) | Absent | Collision | Inconsistent

  /** What the guards of nvfuse_rmfile and nvfuse_rmdir ask of an inode. */
  datatype Target = Target(isDir: bool, isRoot: bool, links: nat)

  /** Outside: the block read is not one of the directory's. Stuck: the directory waits for itself. */
  datatype Outcome = Removed | Refused | Outside(block: nat) | Stuck

  /** nvfuse_rmdir for a directory that is there: it is removed if and only if it is not the root and has no
      names but "." and "..". */
  method RemoveDirectory(dir: Dir, name: string, child: Dir, isRoot: bool) returns (outcome: Outcome)
    requires dir.Valid() && child.Valid() && child != dir
    requires name != "." && name != ".." && Scan(dir.slots, dir.links, name) < dir.links
    modifies dir
    ensures dir.Valid() && child.Valid()
    ensures outcome.Removed? <==>
      !isRoot && forall s: string :: s != "." && s != ".." ==> Scan(child.slots, child.links, s) == child.links
    ensures outcome.Removed? ==> Scan(dir.slots, dir.links, name) == dir.links
    ensures !outcome.Removed? ==> dir.slots == old(dir.slots) && dir.links == old(dir.links)
  {
    hide Compact, NamesOk, Indexed, Scan, SizeOk, OwnEntries;
    CompactLinks(dir.slots, dir.links);
    CompactLinks(child.slots, child.links);
    ghost var slots0, links0, i := dir.slots, dir.links, Scan(dir.slots, dir.links, name);
    TwoFirst(dir.slots, dir.links, dir.key, name);
    OnlyTwoNames(child.slots, child.links, child.key);
    NameOnce(slots0, links0, dir.key, i);
    outcome := dir.Remove(name, true, Target(true, isRoot, child.links));
    if outcome.Removed? {
      CompactLinks(dir.slots, dir.links);
      NameGone(slots0, links0, dir.slots, dir.links, i, name);
    }
  }

  /** What a directory in order means: the first `links` slots are in use and no others, the pointer is at the last
      of them, the size is that of just enough blocks, names are unique, and the index holds the slot of
      every ordinary name, up to 30 bits, and nothing else. */
  lemma DirMeans(d: Dir)
    requires d.Valid()
    ensures 2 <= d.links <= |d.slots| && d.ptr == d.links - 1 && d.links <= 0x7FFF_FFFF
    ensures d.size == (d.links * 128 + 4095) / 4096 * 4096 && |d.slots| * 128 == d.size
    ensures forall i :: 0 <= i < |d.slots| ==> (d.slots[i].flag == Used <==> i < d.links)
    ensures d.slots[0] == Dentry(Used, d.self, ".") && d.slots[1] == Dentry(Used, d.self, "..")
    ensures forall i, j :: 0 <= i < j < d.links ==> d.slots[i].name != d.slots[j].name
    ensures forall i :: 2 <= i < d.links ==> d.key(d.slots[i].name) in d.index && d.index[d.key(d.slots[i].name)] == i % 0x4000_0000
    ensures forall k :: k in d.index ==> exists i :: 2 <= i < d.links && d.key(d.slots[i].name) == k
  {
    hide Scan;
    SizeMeans(|d.slots|, d.size, d.links);
    forall k | k in d.index ensures exists i :: 2 <= i < d.links && d.key(d.slots[i].name) == k {
      assert IsKeyOf(d.slots, d.links, d.key, k);
    }
  }

  lemma SizeMeans(n: nat, size: nat, links: nat)
    requires SizeOk(n, size, links)
    ensures size == (links * 128 + 4095) / 4096 * 4096 && n * 128 == size
  {
    assert (links * 128 + 4095) / 4096 == (links + 31) / 32;
  }

  lemma CompactLinks(slots: seq<Dentry>, links: nat)
    requires Compact(slots, links)
    ensures links <= |slots|
  {
  }

  /** A directory has more than two entries exactly when it has a name besides "." and "..". */
  lemma OnlyTwoNames(slots: seq<Dentry>, links: nat, key: string -> nat)
    requires NamesOk(slots, links, key)
    ensures links <= 2 <==> forall s: string :: s != "." && s != ".." ==> Scan(slots, links, s) == links
  {
    if links > 2 {
      var s := slots[2].name;
      assert s != slots[0].name && s != slots[1].name;
      ScanIs(slots, links, key, s, 2);
    }
  }

  lemma NameOnce(slots: seq<Dentry>, links: nat, key: string -> nat, i: nat)
    requires NamesOk(slots, links, key) && i < links
    ensures forall j :: 0 <= j < links && j != i ==> slots[j].name != slots[i].name
  {
  }

  lemma NameGone(slots0: seq<Dentry>, links0: nat, slots: seq<Dentry>, links: nat, i: nat, name: string)
    requires i < links0 == links + 1 <= |slots0| && links <= |slots| && i == Scan(slots0, links0, name)
    requires forall j :: 0 <= j < links0 && j != i ==> slots0[j].name != slots0[i].name
    requires slots[..links] == slots0[..links0][i := slots0[links0 - 1]][..links0 - 1]
    ensures Scan(slots, links, name) == links
  {
    forall j | 0 <= j < links ensures slots[j].name != name {
      assert slots[j] == slots[..links][j] == if j == i then slots0[links0 - 1] else slots0[j];
    }
  }

  ghost function LookedUp(slots: seq<Dentry>, links: nat, key: string -> nat, index: map<nat, nat>, name: string): Found
    requires links <= |slots|
  {
    var i := Scan(slots, links, name);
    if name == "." || name == ".." then Collision
    else if key(name) !in index then Absent
    else if index[key(name)] == 0 then Collision
    else if i < links && i == index[key(name)] then Slot(i)
    else Inconsistent
  }

  /** Looking a name up through the index agrees with looking at every entry exactly for ordinary names
      that are below slot 2^30, or are missing with an unused key. */
  lemma LookupIsScanIff(slots: seq<Dentry>, links: nat, key: string -> nat, index: map<nat, nat>, name: string)
    requires Compact(slots, links) && NamesOk(slots, links, key) && Indexed(slots, links, key, index)
    ensures var i := Scan(slots, links, name);
      LookedUp(slots, links, key, index, name) == (if i < links then Slot(i) else Absent) <==>
        name != "." && name != ".." && if i < links then i < OFFSET_LIMIT else key(name) !in index
  {
    hide Compact, NamesOk, Indexed, Scan;
    StartsBefore(slots, links, key, index, name);
    TwoAtLeast(slots, links, key);
    var i := Scan(slots, links, name);
    if i < OFFSET_LIMIT {
      assert i % OFFSET_LIMIT == i;
    } else {
      assert i % OFFSET_LIMIT < i;
    }
  }

  /** The name in slot 2^30 is indexed as 0, which a lookup takes for a collision; the next ones as the
      slots of other names. */
  lemma BeyondTheLimit(slots: seq<Dentry>, links: nat, key: string -> nat, index: map<nat, nat>, i: nat)
    requires Compact(slots, links) && NamesOk(slots, links, key) && Indexed(slots, links, key, index)
    requires OFFSET_LIMIT <= i < links <= MAX_FILES
    ensures LookedUp(slots, links, key, index, slots[i].name) == if i == OFFSET_LIMIT then Collision else Inconsistent
  {
    ScanIs(slots, links, key, slots[i].name, i);
    StartsBefore(slots, links, key, index, slots[i].name);
  }

  /** `n` letters from 'a' to 'p' for the number `i`, and the number of such letters. */
  function Letters(i: nat, n: nat): (name: string)
    ensures |name| == n && forall j :: 0 <= j < n ==> 'a' <= name[j] <= 'p'
  {
    if n == 0 then "" else Letters(i / 16, n - 1) + ['a' + (i % 16) as char]
  }

  function Number(name: string): nat {
    if name == "" then 0
    else Number(name[..|name| - 1]) * 16 + if 'a' <= name[|name| - 1] <= 'p' then (name[|name| - 1] - 'a') as nat else 0
  }

  function Sixteens(n: nat): nat {
    if n == 0 then 1 else 16 * Sixteens(n - 1)
  }

  lemma {:induction false} NumberOfLetters(i: nat, n: nat)
    requires i < Sixteens(n)
    ensures Number(Letters(i, n)) == i
  {
    if n > 0 {
      var less, last := Letters(i / 16, n - 1), 'a' + (i % 16) as char;
      var name := less + [last];
      assert name[..|name| - 1] == less && name[|name| - 1] == last;
      NumberOfLetters(i / 16, n - 1);
    }
  }

  /** A file name of eight letters. */
  function FileName(i: nat): (name: string)
    requires i <= OFFSET_LIMIT
    ensures |name| == 8 && (forall j :: 0 <= j < 8 ==> 'a' <= name[j] <= 'p') && Number(name) == i
  {
    assert Sixteens(8) == 0x1_0000_0000 by { Sixteens8(); }
    NumberOfLetters(i, 8);
    Letters(i, 8)
  }

  lemma Sixteens8()
    ensures Sixteens(8) == 0x1_0000_0000
  {
    assert Sixteens(4) == 0x1_0000;
  }

  function EntryOf(i: nat): (d: Dentry)
    ensures 2 <= i <= OFFSET_LIMIT ==> d == Dentry(Used, i + 1, FileName(i)) && Number(d.name) == i
  {
    if i == 0 then Dentry(Used, 2, ".") else if i == 1 then Dentry(Used, 2, "..")
    else if i <= OFFSET_LIMIT then Dentry(Used, i + 1, FileName(i)) else NO_ENTRY
  }

  /** A directory of 2^30 + 1 entries: it is in order, and its last name is not found through the index. */
  lemma OneTooMany(slots: seq<Dentry>, index: map<nat, nat>)
    requires slots == seq(OFFSET_LIMIT + PER_BLOCK, i requires i >= 0 => EntryOf(i))
    requires index == map k | 2 <= k <= OFFSET_LIMIT :: k % OFFSET_LIMIT
    ensures var n := OFFSET_LIMIT;
      && Compact(slots, n + 1) && NamesOk(slots, n + 1, Number) && Indexed(slots, n + 1, Number, index) && OwnEntries(slots, n + 1, 2)
      && Scan(slots, n + 1, FileName(n)) == n && LookedUp(slots, n + 1, Number, index, FileName(n)) == Collision
  {
    hide Scan, LookedUp, NamesOk, Indexed, IsKeyOf, FileName, Letters, Number;
    var n := OFFSET_LIMIT;
    NumberedNames(slots, n + 1);
    NumberedIndex(slots, n + 1, index);
    ScanIs(slots, n + 1, Number, FileName(n), n);
    BeyondTheLimit(slots, n + 1, Number, index, n);
  }

  lemma NumberedIndex(slots: seq<Dentry>, links: nat, index: map<nat, nat>)
    requires 2 <= links <= |slots| && links <= OFFSET_LIMIT + 1 && forall i :: 0 <= i < links ==> slots[i] == EntryOf(i)
    requires index == map k | 2 <= k < links :: k % OFFSET_LIMIT
    ensures Indexed(slots, links, Number, index)
  {
    forall k | k in index ensures IsKeyOf(slots, links, Number, k) {
      assert Number(slots[k].name) == k;
    }
  }

  lemma NumberedNames(slots: seq<Dentry>, links: nat)
    requires 2 <= links <= |slots| && links <= OFFSET_LIMIT + 1 && forall i :: 0 <= i < links ==> slots[i] == EntryOf(i)
    ensures NamesOk(slots, links, Number)
  {
    forall i, j | 0 <= i < j < links ensures slots[i].name != slots[j].name {
      assert i >= 2 ==> Number(slots[i].name) == i;
      assert j >= 2 ==> Number(slots[j].name) == j;
    }
    assert forall i :: 2 <= i < links ==> Number(slots[i].name) == i;
  }

  lemma ItemsInRange(slots: seq<Dentry>, links: nat, key: string -> nat, index: map<nat, nat>, name: string)
    requires Compact(slots, links) && NamesOk(slots, links, key) && Indexed(slots, links, key, index)
    ensures key(name) in index ==> index[key(name)] < OFFSET_LIMIT && index[key(name)] < links
    ensures var i := Scan(slots, links, name);
      forall j :: 0 <= j < links ==> (slots[j].name == name <==> i == j)
  {
    hide NamesOk, Scan;
    TwoAtLeast(slots, links, key);
    if key(name) in index {
      assert IsKeyOf(slots, links, key, key(name));
      var j :| 2 <= j < links && key(slots[j].name) == key(name);
    }
    forall j | 0 <= j < links && slots[j].name == name ensures Scan(slots, links, name) == j {
      ScanIs(slots, links, key, name, j);
    }
  }

  /** The slot read for a removal lies in the directory exactly when the name does. A missing name passes
      the test for one, as block 0x7FFFFFF. */
  lemma SlotInside(n: nat, size: nat, links: nat, i: nat, found: nat)
    requires SizeOk(n, size, links) && i <= links <= MAX_FILES && found == if i < links then i else U32 - 1
    ensures !(found < 0) && (found < links <==> i < links)
    ensures (found / PER_BLOCK) * CLUSTER_SIZE < size <==> i < links
    ensures i == links ==> found / PER_BLOCK == 0x7FF_FFFF
  {
  }

  /** Table and index after slot `i` has been closed with the entry of slot `last`. */
  ghost predicate GapClosed(slots0: seq<Dentry>, index0: map<nat, nat>, slots: seq<Dentry>, index: map<nat, nat>,
                            i: nat, last: nat, key: string -> nat) {
    && i <= last < |slots0| == |slots| && Shifted(slots0, slots, i, last) && IsInvalid(slots[last])
    && (forall j :: last < j < |slots| ==> slots[j] == slots0[j])
    && var k, l := key(slots0[i].name), key(slots0[last].name);
       index == if i == last then index0 - {k} else (index0 - {k} - {l})[l := i % OFFSET_LIMIT]
  }

  lemma DroppedIs(was: map<nat, nat>, now: map<nat, nat>, k: nat)
    requires ItemDropped(was, now, k) && (k in was ==> was[k] < OFFSET_LIMIT)
    ensures now == was - {k}
  {
  }

  lemma SetIs(was: map<nat, nat>, now: map<nat, nat>, k: nat, slot: nat)
    requires ItemSet(was, now, k, slot) && k !in was
    ensures now == was[k := slot % OFFSET_LIMIT]
  {
  }

  lemma GapClosedBy(slots0: seq<Dentry>, index0: map<nat, nat>, i: nat, last: nat, key: string -> nat)
    requires i <= last < |slots0|
    ensures var k, l, e := key(slots0[i].name), key(slots0[last].name), slots0[last];
      var s := slots0[i := slots0[i].(flag := Deleted)];
      if i == last then GapClosed(slots0, index0, s, index0 - {k}, i, last, key)
      else GapClosed(slots0, index0, s[i := e][last := e.(flag := Deleted)], (index0 - {k} - {l})[l := i % OFFSET_LIMIT], i, last, key)
  {
  }

  lemma SizeShrinks(n: nat, size: nat, links: nat)
    requires SizeOk(n, size, links) && links >= 2
    ensures if (links - 1) * ENTRY_SIZE % CLUSTER_SIZE == 0
      then n >= PER_BLOCK && size >= CLUSTER_SIZE && SizeOk(n - PER_BLOCK, size - CLUSTER_SIZE, links - 1) && links - 1 + PER_BLOCK <= n
      else SizeOk(n, size, links - 1)
  {
    BlockOfLast(links);
    BlockOfLast(links - 1);
  }

  lemma ScanFinds(slots: seq<Dentry>, links: nat, name: string)
    requires links <= |slots| && Scan(slots, links, name) < links
    ensures slots[Scan(slots, links, name)].name == name
  {
  }

  lemma TwoAtLeast(slots: seq<Dentry>, links: nat, key: string -> nat)
    requires NamesOk(slots, links, key)
    ensures 2 <= links <= |slots| && slots[1].name == ".."
  {
  }

  lemma BlockOfLast(links: nat)
    requires links >= 1
    ensures var b, e := (links - 1) / PER_BLOCK, (links - 1) % PER_BLOCK;
      && links == b * PER_BLOCK + e + 1 && BlocksOf(links) == b + 1
      && BlocksOf(links + 1) == if e == PER_BLOCK - 1 then b + 2 else b + 1
  {
  }

  /** The entries without number `i`: the last one takes its place. */
  ghost function Closed(es: seq<Dentry>, i: nat): seq<Dentry>
    requires i < |es|
  {
    es[i := es[|es| - 1]][..|es| - 1]
  }

  /** The index never points behind the slot of a name. */
  lemma StartsBefore(slots: seq<Dentry>, links: nat, key: string -> nat, index: map<nat, nat>, name: string)
    requires Compact(slots, links) && NamesOk(slots, links, key) && Indexed(slots, links, key, index)
    ensures var i := Scan(slots, links, name);
      && (name == "." ==> i == 0) && (name == ".." ==> i == 1)
      && (i < links && name != "." && name != ".." ==>
            i >= 2 && key(name) in index && index[key(name)] == i % OFFSET_LIMIT && ReadItem(index[key(name)]) <= i)
  {
    var i := Scan(slots, links, name);
    if name == "." { ScanIs(slots, links, key, name, 0); }
    if name == ".." { ScanIs(slots, links, key, name, 1); }
  }

  /** Slots 0 and 1 belong to "." and "..". */
  lemma TwoFirst(slots: seq<Dentry>, links: nat, key: string -> nat, name: string)
    requires NamesOk(slots, links, key)
    ensures Scan(slots, links, name) < 2 <==> name == "." || name == ".."
  {
    if name == "." { ScanIs(slots, links, key, name, 0); }
    if name == ".." { ScanIs(slots, links, key, name, 1); }
  }

  lemma OwnAt(slots: seq<Dentry>, links: nat, self: nat, i: nat)
    requires OwnEntries(slots, links, self) && i < links
    ensures i < |slots| && (slots[i].ino == self <==> i < 2)
  {
  }

  lemma NewOwn(slots0: seq<Dentry>, slots1: seq<Dentry>, links: nat, self: nat, name: string, ino: nat)
    requires OwnEntries(slots0, links, self) && 2 <= links < |slots1| && slots1[..links] == slots0[..links]
    ensures OwnEntries(slots1[links := Dentry(Used, ino, name)], links + 1, self) <==> ino != self
  {
    NewEntry(slots0, slots1, links, name, ino);
  }

  lemma RemovedOwn(slots0: seq<Dentry>, links0: nat, key: string -> nat, index0: map<nat, nat>, i: nat, slots: seq<Dentry>, index: map<nat, nat>,
                   self: nat)
    requires OwnEntries(slots0, links0, self) && 2 <= i < links0 && GapClosed(slots0, index0, slots, index, i, links0 - 1, key)
    ensures OwnEntries(slots, links0 - 1, self)
  {
  }

  lemma DropLastOwn(slots: seq<Dentry>, links: nat, self: nat)
    requires OwnEntries(slots, links, self) && links + PER_BLOCK <= |slots|
    ensures OwnEntries(slots[..|slots| - PER_BLOCK], links, self)
  {
    var t := slots[..|slots| - PER_BLOCK];
    assert forall i :: 0 <= i < |t| ==> t[i] == slots[i];
  }

  /** The new entry follows the old ones. */
  ghost predicate Extended(slots0: seq<Dentry>, slots: seq<Dentry>, links: nat, d: Dentry) {
    && links < |slots| && links <= |slots0| && slots[links] == d && forall i :: 0 <= i < links ==> slots[i] == slots0[i]
  }

  lemma ExtendedNames(slots0: seq<Dentry>, slots: seq<Dentry>, links: nat, d: Dentry, key: string -> nat, index: map<nat, nat>)
    requires NamesOk(slots0, links, key) && Indexed(slots0, links, key, index) && Extended(slots0, slots, links, d)
    requires Scan(slots0, links, d.name) == links && key(d.name) != 0 && key(d.name) !in index
    ensures NamesOk(slots, links + 1, key)
  {
    forall i, j | 0 <= i < j < links + 1 ensures slots[i].name != slots[j].name {
      assert slots[i] == slots0[i] && slots0[i].name != d.name;
    }
    ExtendedKeys(slots0, slots, links, d, key, index);
  }

  lemma ExtendedKeys(slots0: seq<Dentry>, slots: seq<Dentry>, links: nat, d: Dentry, key: string -> nat, index: map<nat, nat>)
    requires NamesOk(slots0, links, key) && Indexed(slots0, links, key, index) && Extended(slots0, slots, links, d)
    requires key(d.name) !in index
    ensures forall i, j :: 2 <= i < j < links + 1 ==> key(slots[i].name) != key(slots[j].name)
  {
    forall i, j | 2 <= i < j < links + 1 ensures key(slots[i].name) != key(slots[j].name) {
      assert slots[i] == slots0[i] && key(slots0[i].name) in index;
    }
  }

  lemma ExtendedIndex(slots0: seq<Dentry>, slots: seq<Dentry>, links: nat, d: Dentry, key: string -> nat, index: map<nat, nat>)
    requires Indexed(slots0, links, key, index) && Extended(slots0, slots, links, d) && key(d.name) !in index && links >= 2
    ensures Indexed(slots, links + 1, key, index[key(d.name) := links % OFFSET_LIMIT])
  {
    var index' := index[key(d.name) := links % OFFSET_LIMIT];
    assert forall i :: 2 <= i < links ==> key(slots0[i].name) in index;
    forall k | k in index' ensures IsKeyOf(slots, links + 1, key, k) {
      if k == key(d.name) {
        assert key(slots[links].name) == k;
      } else {
        assert IsKeyOf(slots0, links, key, k);
        var i :| 2 <= i < links && key(slots0[i].name) == k;
        assert key(slots[i].name) == k;
      }
    }
  }

  lemma NewEntry(slots0: seq<Dentry>, slots1: seq<Dentry>, links: nat, name: string, ino: nat)
    requires links <= |slots0| && links < |slots1| && slots1[..links] == slots0[..links]
    ensures var d := Dentry(Used, ino, name); var slots := slots1[links := d];
      Extended(slots0, slots, links, d) && slots[..links + 1] == slots0[..links] + [d]
  {
    var d := Dentry(Used, ino, name);
    var slots := slots1[links := d];
    assert forall i :: 0 <= i < links ==> slots1[i] == slots1[..links][i] == slots0[..links][i];
    assert slots[..links + 1] == slots1[..links] + [d];
  }

  lemma Created(slots0: seq<Dentry>, slots1: seq<Dentry>, links: nat, key: string -> nat, index: map<nat, nat>, name: string, ino: nat)
    requires Compact(slots0, links) && NamesOk(slots0, links, key) && Indexed(slots0, links, key, index)
    requires Compact(slots1, links) && links < |slots1| && slots1[..links] == slots0[..links]
    requires Scan(slots0, links, name) == links && key(name) != 0 && key(name) !in index
    ensures var slots := slots1[links := Dentry(Used, ino, name)];
      && |slots| == |slots1| && Compact(slots, links + 1) && NamesOk(slots, links + 1, key)
      && Indexed(slots, links + 1, key, index[key(name) := links % OFFSET_LIMIT])
  {
    hide NamesOk, Indexed, Scan, Extended;
    TwoAtLeast(slots0, links, key);
    var d := Dentry(Used, ino, name);
    NewEntry(slots0, slots1, links, name, ino);
    ExtendedNames(slots0, slots1[links := d], links, d, key, index);
    ExtendedIndex(slots0, slots1[links := d], links, d, key, index);
  }

  /** A name or key that is in use already puts the directory out of order. */
  lemma NotFresh(slots0: seq<Dentry>, slots1: seq<Dentry>, links: nat, key: string -> nat, index: map<nat, nat>, name: string, ino: nat)
    requires NamesOk(slots0, links, key) && Indexed(slots0, links, key, index)
    requires links < |slots1| && slots1[..links] == slots0[..links]
    requires Scan(slots0, links, name) < links || key(name) == 0 || key(name) in index
    ensures !NamesOk(slots1[links := Dentry(Used, ino, name)], links + 1, key)
  {
    NewEntry(slots0, slots1, links, name, ino);
    var slots := slots1[links := Dentry(Used, ino, name)];
    if Scan(slots0, links, name) < links {
      assert slots[Scan(slots0, links, name)].name == slots[links].name;
    } else if key(name) in index {
      assert IsKeyOf(slots0, links, key, key(name));
      var i :| 2 <= i < links && key(slots0[i].name) == key(name);
      assert key(slots[i].name) == key(slots[links].name);
    } else {
      assert key(slots[links].name) == 0;
    }
  }

  lemma DelIndexed(slots: seq<Dentry>, links: nat, key: string -> nat, index: map<nat, nat>, i: int)
    requires Compact(slots, links) && NamesOk(slots, links, key) && Indexed(slots, links, key, index) && 0 <= i < links
    requires i >= 2
    ensures var last := links - 1; var k, l := key(slots[i].name), key(slots[last].name);
      && (k in index ==> index[k] < OFFSET_LIMIT) && (l in index ==> index[l] < OFFSET_LIMIT)
      && (i != last && k in index ==> k != l)
  {
    ItemsInRange(slots, links, key, index, slots[i].name);
    ItemsInRange(slots, links, key, index, slots[links - 1].name);
  }

  /** Entry `last` has moved to slot `i`; the entries before `last` are otherwise the same. */
  ghost predicate Shifted(slots0: seq<Dentry>, slots: seq<Dentry>, i: nat, last: nat) {
    && i <= last < |slots0| == |slots|
    && forall j :: 0 <= j < last ==> slots[j] == if j == i then slots0[last] else slots0[j]
  }

  lemma ShiftedNames(slots0: seq<Dentry>, slots: seq<Dentry>, i: nat, last: nat, key: string -> nat)
    requires NamesOk(slots0, last + 1, key) && Shifted(slots0, slots, i, last) && i >= 2
    ensures NamesOk(slots, last, key)
  {
  }

  lemma ShiftedItems(slots0: seq<Dentry>, slots: seq<Dentry>, i: nat, last: nat, key: string -> nat, index0: map<nat, nat>, index: map<nat, nat>)
    requires NamesOk(slots0, last + 1, key) && Shifted(slots0, slots, i, last) && i >= 2 && Indexed(slots0, last + 1, key, index0)
    requires var k, l := key(slots0[i].name), key(slots0[last].name);
      index == if i == last then index0 - {k} else (index0 - {k} - {l})[l := i % OFFSET_LIMIT]
    ensures forall j :: 2 <= j < last ==> key(slots[j].name) in index && index[key(slots[j].name)] == j % OFFSET_LIMIT
  {
    forall j | 2 <= j < last ensures key(slots[j].name) in index && index[key(slots[j].name)] == j % OFFSET_LIMIT {
      if j != i {
        assert key(slots0[j].name) != key(slots0[i].name) && key(slots0[j].name) != key(slots0[last].name);
        assert key(slots0[j].name) in index0 && index0[key(slots0[j].name)] == j % OFFSET_LIMIT;
      }
    }
  }

  lemma ShiftedKeys(slots0: seq<Dentry>, slots: seq<Dentry>, i: nat, last: nat, key: string -> nat, index0: map<nat, nat>, index: map<nat, nat>)
    requires Shifted(slots0, slots, i, last) && i >= 2 && Indexed(slots0, last + 1, key, index0)
    requires var k, l := key(slots0[i].name), key(slots0[last].name);
      index == if i == last then index0 - {k} else (index0 - {k} - {l})[l := i % OFFSET_LIMIT]
    ensures forall k :: k in index ==> IsKeyOf(slots, last, key, k)
  {
    forall k | k in index ensures IsKeyOf(slots, last, key, k) {
      if i != last && k == key(slots0[last].name) {
        assert key(slots[i].name) == k;
      } else {
        assert IsKeyOf(slots0, last + 1, key, k);
        var j :| 2 <= j < last + 1 && key(slots0[j].name) == k;
        assert key(slots[j].name) == k;
      }
    }
  }

  lemma ShiftedIndex(slots0: seq<Dentry>, slots: seq<Dentry>, i: nat, last: nat, key: string -> nat, index0: map<nat, nat>, index: map<nat, nat>)
    requires NamesOk(slots0, last + 1, key) && Shifted(slots0, slots, i, last) && i >= 2 && Indexed(slots0, last + 1, key, index0)
    requires var k, l := key(slots0[i].name), key(slots0[last].name);
      index == if i == last then index0 - {k} else (index0 - {k} - {l})[l := i % OFFSET_LIMIT]
    ensures Indexed(slots, last, key, index)
  {
    hide NamesOk, IsKeyOf;
    ShiftedItems(slots0, slots, i, last, key, index0, index);
    ShiftedKeys(slots0, slots, i, last, key, index0, index);
  }

  lemma ShiftedCompact(slots0: seq<Dentry>, slots: seq<Dentry>, i: nat, last: nat)
    requires Compact(slots0, last + 1) && Shifted(slots0, slots, i, last) && IsInvalid(slots[last])
    requires forall j :: last < j < |slots| ==> slots[j] == slots0[j]
    ensures Compact(slots, last) && slots[..last] == Closed(slots0[..last + 1], i)
  {
    var c := Closed(slots0[..last + 1], i);
    assert |c| == last;
    forall j | 0 <= j < last ensures slots[..last][j] == c[j] {
    }
  }

  lemma RemovedKeeps(slots0: seq<Dentry>, links0: nat, key: string -> nat, index0: map<nat, nat>, i: nat, slots: seq<Dentry>, index: map<nat, nat>)
    requires Compact(slots0, links0) && NamesOk(slots0, links0, key) && Indexed(slots0, links0, key, index0) && 2 <= i < links0
    requires GapClosed(slots0, index0, slots, index, i, links0 - 1, key)
    ensures var last := links0 - 1;
      && Compact(slots, last) && NamesOk(slots, last, key) && Indexed(slots, last, key, index)
      && links0 <= |slots0| == |slots| && slots[..last] == Closed(slots0[..links0], i)
  {
    hide Compact, NamesOk, Indexed, Closed, Shifted;
    var last := links0 - 1;
    ShiftedCompact(slots0, slots, i, last);
    ShiftedNames(slots0, slots, i, last, key);
    ShiftedIndex(slots0, slots, i, last, key, index0, index);
  }

  lemma DropLast(slots: seq<Dentry>, links: nat, key: string -> nat, index: map<nat, nat>)
    requires Compact(slots, links) && NamesOk(slots, links, key) && Indexed(slots, links, key, index)
    requires links + PER_BLOCK <= |slots|
    ensures var t := slots[..|slots| - PER_BLOCK];
      Compact(t, links) && NamesOk(t, links, key) && Indexed(t, links, key, index) && t[..links] == slots[..links]
  {
    var t := slots[..|slots| - PER_BLOCK];
    assert forall i :: 0 <= i < |t| ==> t[i] == slots[i];
  }
}
