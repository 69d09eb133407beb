/** Growing a file: new data blocks in free slots of an array, and new branches. */
module FileGrow {
  import opened Sequences
  import opened PointerTree
  import opened FileTree
  import opened FilePrune
  import opened BlockPath
  import opened FileCut

  /** Distinct blocks, none of them block 0. */
  ghost predicate Fresh(blks: seq<nat>) {
    0 !in blks && NoDuplicates(blks)
  }

  ghost function Blocks(blks: seq<nat>): set<nat> {
    set x | x in blks
  }

  // ------------------------------------------------- filling slots of one array

  function Placed(row: seq<nat>, at: nat, data: seq<nat>): (r: seq<nat>)
    requires at + |data| <= |row|
    ensures |r| == |row|
  {
    row[..at] + data + row[at + |data|..]
  }

  /** Paths through the filled slots lead to the new data, all others where they did. */
  ghost predicate Filled(f: File, f': File, up: seq<nat>, at: nat, data: seq<nat>) {
    |f.slots| == SLOTS == |f'.slots| &&
    forall q :: IsPath(q) ==>
      FilePtr(f', q) == if Through(q, up, at, at + |data|) then data[q[|up|] - at] else FilePtr(f, q)
  }

  lemma FreeSlotStays(f: File, f1: File, up: seq<nat>, at: nat, data: seq<nat>, hi: nat)
    requires IsRange(f, up, at, hi, 0) && at + |data| < hi && IsTree(f1) && Filled(f, f1, up, at, data)
    ensures var p := up + [at + |data|];
      HasSlot(f1, p) && FilePtr(f1, p) == ArrayAt(f, up)[at + |data|] && Below(p) == 0 &&
      (up != [] ==> Holder(f1, p) == FilePtr(f, up))
  {
    hide Reach, Tree, IsTree, ArrayAt, PtrAt, IsRange, Below, Holder, HasSlot, IsPath, FilePtr;
    var p := up + [at + |data|];
    SlotPath(f, up, at, hi, 0, at + |data|);
    SlotsThere(f, f1, up, at, data, hi);
    assert FilePtr(f1, p) == FilePtr(f, p);
    if up != [] {
      assert FilePtr(f1, up) == FilePtr(f, up);
      HolderIs(f1, up, at + |data|);
      HolderIs(f, up, at + |data|);
    }
    HasSlotIff(f1, p);
  }

  lemma SlotsThere(f: File, f1: File, up: seq<nat>, at: nat, data: seq<nat>, hi: nat)
    requires IsRange(f, up, at, hi, 0) && Filled(f, f1, up, at, data)
    ensures |f1.slots| == SLOTS && (up != [] ==> IsPath(up) && FilePtr(f, up) != 0)
  {
  }

  lemma HolderIs(f: File, up: seq<nat>, i: nat)
    requires |f.slots| == SLOTS && up != [] && IsPath(up + [i]) && IsPath(up)
    ensures Holder(f, up + [i]) == FilePtr(f, up)
  {
    assert (up + [i])[1..|up|] == up[1..];
  }

  lemma NextPlaced(f: File, up: seq<nat>, at: nat, data: seq<nat>, x: nat, p: seq<nat>)
    requires HasArray(f, up) && at + |data| < |ArrayAt(f, up)| && p == up + [at + |data|]
    requires var f1 := WithArray(f, up, Placed(ArrayAt(f, up), at, data));
      HasSlot(f1, p) && (up != [] ==> Holder(f1, p) == FilePtr(f, up))
    ensures FileStored(WithArray(f, up, Placed(ArrayAt(f, up), at, data)), p, x)
      == WithArray(f, up, Placed(ArrayAt(f, up), at, data + [x]))
  {
    hide Holder, HasArray, FilePtr, HasSlot, IsTree;
    var row := ArrayAt(f, up);
    assert Placed(row, at, data)[at + |data| := x] == Placed(row, at, data + [x]);
  }

  /** Storing one block into a slot that was free. */
  lemma FillNext(f: File, f1: File, up: seq<nat>, at: nat, data: seq<nat>, x: nat, p: seq<nat>)
    requires p == up + [at + |data|] && HasSlot(f1, p) && Below(p) == 0 && FilePtr(f1, p) == 0
    requires Filled(f, f1, up, at, data) && x != 0 && x !in FileReach(f1)
    ensures var f' := FileStored(f1, p, x);
      IsTree(f') && FileReach(f') == FileReach(f1) + {x} && Filled(f, f', up, at, data + [x])
  {
    ZeroTree(f1.disk, 0);
    assert Tree(f1.disk, x, 0) && Reach(f1.disk, x, 0) == {x};
    hide Reach, Tree, IsTree, FilePtr, FileStored, FileReach;
    var f' := FileStored(f1, p, x);
    FileStore(f1, p, x);
    StoredSlots(f1, p, x);
    forall q: seq<nat> | IsPath(q)
      ensures FilePtr(f', q) == if Through(q, up, at, at + |data| + 1) then (data + [x])[q[|up|] - at] else FilePtr(f, q)
    {
      FileStorePtr(f1, p, x, q);
      assert p <= q <==> up <= q && |up| < |q| && q[|up|] == at + |data|;
      if p <= q {
        assert p[0] == q[0] && |q| == |p| && q[|p|..] == [];
      }
    }
  }

  ghost predicate AreFree(row: seq<nat>, lo: nat, hi: nat) {
    hi <= |row| && forall i :: lo <= i < hi ==> row[i] == 0
  }

  lemma Shorter(data: seq<nat>)
    requires data != [] && Fresh(data)
    ensures var n := |data| - 1; var less, x := data[..n], data[n];
      data == less + [x] && Fresh(less) && Blocks(data) == Blocks(less) + {x} && x != 0 && x !in Blocks(less)
  {
    var n := |data| - 1;
    assert data == data[..n] + [data[n]];
    assert data[n] in data;
  }

  lemma ShorterRange(f: File, up: seq<nat>, at: nat, hi: nat)
    requires IsRange(f, up, at, hi, 0) && at < hi && AreFree(ArrayAt(f, up), at, hi)
    ensures IsRange(f, up, at, hi - 1, 0) && AreFree(ArrayAt(f, up), at, hi - 1)
    ensures HasArray(f, up) && hi <= |ArrayAt(f, up)| && ArrayAt(f, up)[hi - 1] == 0
  {
  }

  /** Filling free slots of an array adds exactly the new blocks. */
  lemma {:induction false} Fill(f: File, up: seq<nat>, at: nat, data: seq<nat>)
    requires IsRange(f, up, at, at + |data|, 0) && Fresh(data) && Blocks(data) !! FileReach(f)
    requires AreFree(ArrayAt(f, up), at, at + |data|)
    ensures var f' := WithArray(f, up, Placed(ArrayAt(f, up), at, data));
      IsTree(f') && FileReach(f') == FileReach(f) + Blocks(data) && Filled(f, f', up, at, data)
    decreases |data|
  {
    hide *;
    if data == [] {
      FillNothing(f, up, at);
    } else {
      var n := |data| - 1;
      var less, x := data[..n], data[n];
      Shorter(data);
      ShorterRange(f, up, at, at + |data|);
      Fill(f, up, at, less);
      var f1, p := WithArray(f, up, Placed(ArrayAt(f, up), at, less)), up + [at + n];
      FreeSlotStays(f, f1, up, at, less, at + |data|);
      NextPlaced(f, up, at, less, x, p);
      FillNext(f, f1, up, at, less, x, p);
    }
  }

  lemma FillNothing(f: File, up: seq<nat>, at: nat)
    requires IsRange(f, up, at, at, 0)
    ensures WithArray(f, up, Placed(ArrayAt(f, up), at, [])) == f && Filled(f, f, up, at, []) && IsTree(f) && Blocks([]) == {}
  {
    var row := ArrayAt(f, up);
    assert Placed(row, at, []) == row;
    if up != [] {
      ArrayPresent(f, up);
      assert f.disk[FilePtr(f, up) := row] == f.disk;
    }
  }

  // ------------------------------------------------------------ a new branch

  function Zeroes(n: nat): (r: seq<nat>)
    ensures |r| == n && forall i :: 0 <= i < n ==> r[i] == 0
  {
    seq(n, _ => 0)
  }

  /** The array of the first of `ind` new pointer blocks: `blks` are those pointer blocks,
      followed by the data blocks. */
  function NewRow(blks: seq<nat>, ind: nat): (r: seq<nat>)
    requires 1 <= ind < |blks| <= ind + PTRS
  {
    if ind == 1 then blks[1..] + Zeroes(PTRS - (|blks| - 1)) else [blks[1]] + Zeroes(PTRS - 1)
  }

  /** The new pointer blocks are linked to each other, and the last one to the data. */
  ghost predicate Chained(disk: Disk, blks: seq<nat>, ind: nat) {
    && ind < |blks| <= ind + PTRS
    && (ind == 0 || (blks[0] in disk && disk[blks[0]] == NewRow(blks, ind) && Chained(disk, blks[1..], ind - 1)))
  }

  ghost predicate AllZero(q: seq<nat>) {
    forall i :: 0 <= i < |q| ==> q[i] == 0
  }

  lemma Rest(blks: seq<nat>)
    requires blks != [] && Fresh(blks)
    ensures Fresh(blks[1..]) && Blocks(blks) == {blks[0]} + Blocks(blks[1..]) && blks[0] !in Blocks(blks[1..]) && blks[0] != 0
  {
    assert forall i :: 1 <= i < |blks| ==> blks[i] == blks[1..][i - 1];
    assert blks[0] in blks;
  }

  /** The data below a last pointer block. */
  lemma DataRow(disk: Disk, data: seq<nat>, row: seq<nat>)
    requires Fresh(data) && |data| <= |row| && data <= row && forall i :: |data| <= i < |row| ==> row[i] == 0
    ensures Forest(disk, row, 0) && ReachAll(disk, row, 0) == Blocks(data)
  {
    assert forall i :: 0 <= i < |row| ==> Reach(disk, row[i], 0) == if i < |data| then {data[i]} else {};
  }

  /** A single subtree in an otherwise empty array. */
  lemma LoneRow(disk: Disk, row: seq<nat>, d: nat)
    requires row != [] && Tree(disk, row[0], d) && forall i :: 1 <= i < |row| ==> row[i] == 0
    ensures Forest(disk, row, d) && ReachAll(disk, row, d) == Reach(disk, row[0], d)
  {
    assert forall i :: 1 <= i < |row| ==> Reach(disk, row[i], d) == {};
  }

  /** A new branch is a tree made of exactly the new blocks. */
  lemma {:induction false} NewBranch(disk: Disk, blks: seq<nat>, ind: nat)
    requires Chained(disk, blks, ind) && Fresh(blks) && ind >= 1
    ensures Tree(disk, blks[0], ind) && Reach(disk, blks[0], ind) == Blocks(blks)
    decreases ind
  {
    Rest(blks);
    var row := disk[blks[0]];
    if ind == 1 {
      DataRow(disk, blks[1..], row);
    } else {
      NewBranch(disk, blks[1..], ind - 1);
      LoneRow(disk, row, ind - 1);
    }
  }

  /** Following zeroes down the new branch, and then the `i`-th slot, leads to data block
      `i`; every other way leads nowhere. */
  lemma {:induction false} NewBranchPtr(disk: Disk, blks: seq<nat>, ind: nat, q: seq<nat>)
    requires Chained(disk, blks, ind) && Fresh(blks) && 1 <= |q| <= ind && InRange(q)
    ensures var n := |q| - 1;
      PtrAt(disk, blks[0], q) ==
        if !AllZero(q[..n]) then 0
        else if |q| < ind then (if q[n] == 0 then blks[|q|] else 0)
        else if q[n] < |blks| - ind then blks[ind + q[n]] else 0
    decreases ind
  {
    Rest(blks);
    var row, n := disk[blks[0]], |q| - 1;
    assert PtrAt(disk, blks[0], q) == PtrAt(disk, row[q[0]], q[1..]);
    if n == 0 {
      assert PtrAt(disk, row[q[0]], []) == row[q[0]];
    } else if q[0] == 0 {
      NewBranchPtr(disk, blks[1..], ind - 1, q[1..]);
      assert q[1..][..n - 1] == q[..n][1..];
      assert AllZero(q[..n]) <==> AllZero(q[1..][..n - 1]) by {
        assert forall i :: 1 <= i < n ==> q[..n][i] == q[1..][..n - 1][i - 1];
      }
    } else {
      assert q[..n][0] != 0;
      ZeroPtr(disk, q[1..]);
    }
  }

  // ---------------------------------------------------- the two ways to grow

  /** `q` is the path of one of the `n` slots from `path` on, in the same array. */
  ghost predicate InRun(q: seq<nat>, path: seq<nat>, n: nat)
    requires path != []
  {
    var m := |path| - 1;
    |q| == |path| && q[..m] == path[..m] && path[m] <= q[m] < path[m] + n
  }

  /** Exactly the data blocks `data` have been mapped, from `path` on. */
  ghost predicate Grown(f: File, f': File, path: seq<nat>, data: seq<nat>) {
    && |f.slots| == SLOTS == |f'.slots| && path != []
    && (forall q :: IsFull(q) ==>
         FilePtr(f', q) == if InRun(q, path, |data|) then data[q[|path| - 1] - path[|path| - 1]] else FilePtr(f, q))
    && (Lean(f) ==> Lean(f'))
  }

  lemma FullThrough(q: seq<nat>, path: seq<nat>, n: nat)
    requires IsFull(path) && IsPath(q) && n >= 1 && (|path| == 1 ==> path[0] + n <= DIRECT)
    ensures var m := |path| - 1; Through(q, path[..m], path[m], path[m] + n) <==> InRun(q, path, n)
  {
    var m := |path| - 1;
    if Through(q, path[..m], path[m], path[m] + n) {
      assert q[..m] == path[..m];
      if m > 0 { assert q[0] == q[..m][0] == path[..m][0]; }
    }
    if InRun(q, path, n) {
      assert path[..m] <= q by { assert q[..m] == path[..m]; }
    }
  }

  /** Where a path leads after data has been filled in. */
  lemma FilledAt(f: File, f': File, path: seq<nat>, data: seq<nat>, q: seq<nat>)
    requires IsFull(path) && data != [] && (|path| == 1 ==> path[0] + |data| <= DIRECT)
    requires Filled(f, f', path[..|path| - 1], path[|path| - 1], data) && IsPath(q)
    ensures FilePtr(f', q) == if InRun(q, path, |data|) then data[q[|path| - 1] - path[|path| - 1]] else FilePtr(f, q)
    ensures InRun(q, path, |data|) ==> IsFull(q) && data[q[|path| - 1] - path[|path| - 1]] in data
  {
    hide FilePtr;
    FullThrough(q, path, |data|);
    if InRun(q, path, |data|) && |path| > 1 {
      assert q[0] == q[..|path| - 1][0] == path[0];
    }
  }

  /** New data blocks in an existing array. */
  lemma FilledGrows(f: File, f': File, path: seq<nat>, data: seq<nat>)
    requires IsFull(path) && data != [] && 0 !in data && (|path| == 1 ==> path[0] + |data| <= DIRECT)
    requires Filled(f, f', path[..|path| - 1], path[|path| - 1], data)
    ensures Grown(f, f', path, data)
  {
    assert |f.slots| == SLOTS == |f'.slots| && path != [];
    hide FilePtr, Filled, InRun, IsPath, Lean;
    forall q | IsFull(q)
      ensures FilePtr(f', q) == if InRun(q, path, |data|) then data[q[|path| - 1] - path[|path| - 1]] else FilePtr(f, q)
    {
      FilledAt(f, f', path, data, q);
    }
    if Lean(f) {
      FilledStaysLean(f, f', path, data);
    }
  }

  lemma FilledStaysLean(f: File, f': File, path: seq<nat>, data: seq<nat>)
    requires IsFull(path) && data != [] && 0 !in data && (|path| == 1 ==> path[0] + |data| <= DIRECT)
    requires Filled(f, f', path[..|path| - 1], path[|path| - 1], data) && Lean(f)
    ensures Lean(f')
  {
    assert |f.slots| == SLOTS == |f'.slots|;
    forall q | IsPath(q) && FilePtr(f', q) != 0 ensures LeadsToData(f', q) {
      hide FilePtr, Filled, InRun, Lean, InRange;
      FilledAt(f, f', path, data, q);
      if InRun(q, path, |data|) {
        assert Leads(f', q, q);
      } else {
        var e := LeanAt(f, q);
        FilledAt(f, f', path, data, e);
        assert Leads(f', q, e);
      }
    }
  }

  /** Offsets below the first missing pointer are zero, as nvfuse_alloc_branch insists. */
  ghost predicate AppendsAt(f: File, path: seq<nat>)
    requires |f.slots| == SLOTS && IsPath(path)
  {
    forall j :: 1 <= j < |path| && IsPath(path[..j]) && FilePtr(f, path[..j]) == 0 ==> path[j] == 0
  }

  /** How many pointer blocks are missing on the way to the slot at `path`. */
  ghost function Missing(f: File, path: seq<nat>): nat
    requires |f.slots| == SLOTS && IsPath(path)
    decreases |path|
  {
    if |path| == 1 then 0
    else
      PrefixPath(path, |path| - 1);
      var up := path[..|path| - 1];
      Missing(f, up) + if FilePtr(f, up) == 0 then 1 else 0
  }

  lemma FewMissing(f: File, path: seq<nat>)
    requires |f.slots| == SLOTS && IsPath(path)
    ensures Missing(f, path) < |path|
    decreases |path|
  {
  }

  /** They are those that the branch lacks. */
  lemma {:induction false} MissingOnBranch(f: File, path: seq<nat>, keys: seq<nat>)
    requires |f.slots| == SLOTS && IsPath(path) && Branch(f, path, keys) && (keys[|keys| - 1] == 0 || |keys| == |path|)
    ensures Missing(f, path) == |path| - |keys|
    decreases |path|
  {
    var n := |path| - 1;
    if n > 0 {
      PrefixPath(path, n);
      var up := path[..n];
      assert forall j :: 1 <= j <= n ==> up[..j] == path[..j];
      if |keys| == |path| {
        assert FilePtr(f, up) == keys[n - 1] != 0;
        MissingOnBranch(f, up, keys[..n]);
      } else {
        assert FilePtr(f, up[..|keys|]) == 0;
        ZeroPrefix(f, up, |keys|);
        MissingOnBranch(f, up, keys);
      }
    }
  }

  /** Where the pointers of a grafted branch lead. */
  ghost predicate Grafted(f: File, f': File, at: seq<nat>, disk': Disk, nr: nat) {
    |f.slots| == SLOTS == |f'.slots| &&
    forall q :: IsPath(q) ==> FilePtr(f', q) == if at <= q then PtrAt(disk', nr, q[|at|..]) else FilePtr(f, q)
  }

  /** The file after hanging the new branch `blks` on the free slot at the end of `at`. */
  lemma Graft(f: File, disk': Disk, at: seq<nat>, blks: seq<nat>, ind: nat)
    requires HasSlot(f, at) && FilePtr(f, at) == 0 && Below(at) == ind >= 1
    requires Chained(disk', blks, ind) && Fresh(blks) && Blocks(blks) !! FileReach(f) && SameOn(f.disk, disk', FileReach(f))
    ensures HasSlot(File(f.slots, disk'), at)
    ensures var f' := FileStored(File(f.slots, disk'), at, blks[0]);
      IsTree(f') && FileReach(f') == FileReach(f) + Blocks(blks) && Grafted(f, f', at, disk', blks[0])
  {
    assert blks != [] && |f.slots| == SLOTS;
    hide Reach, Tree, IsTree, FilePtr, FileStored, FileReach, Chained, Blocks, Holder;
    NewBranch(disk', blks, ind);
    FileFrame(f, disk');
    var g := File(f.slots, disk');
    SlotStays(f, disk', at);
    FileStore(g, at, blks[0]);
    ZeroTree(disk', ind);
    StoredSlots(g, at, blks[0]);
    var f' := FileStored(g, at, blks[0]);
    forall q: seq<nat> | IsPath(q) ensures FilePtr(f', q) == if at <= q then PtrAt(disk', blks[0], q[|at|..]) else FilePtr(f, q) {
      FileStorePtr(g, at, blks[0], q);
    }
  }

  lemma SlotStays(f: File, disk': Disk, at: seq<nat>)
    requires HasSlot(f, at) && SameOn(f.disk, disk', FileReach(f)) && IsTree(File(f.slots, disk'))
    ensures HasSlot(File(f.slots, disk'), at)
  {
    if |at| > 1 {
      HasSlotIff(f, at);
      SlotReached(f, at[0]);
      FileFrame(f, disk');
      PrefixPath(at, |at| - 1);
      var up := at[..|at| - 1];
      assert up[1..] == at[1..|at| - 1];
      assert FilePtr(File(f.slots, disk'), up) == FilePtr(f, up);
    }
  }

  lemma RunBelow(path: seq<nat>, k: nat, q: seq<nat>, n: nat)
    requires IsFull(path) && IsFull(q) && 1 <= k < |path| && AllZero(path[k..]) && n >= 1
    ensures var m := |path| - 1;
      InRun(q, path, n) <==> (path[..k] <= q && AllZero(q[k..][..m - k]) && |q| == |path| && q[m] < n)
  {
    var m := |path| - 1;
    assert path[m] == path[k..][m - k];
    if path[..k] <= q {
      assert q[0] == path[..k][0] == path[0];
      assert q[..m] == q[..k] + q[k..][..m - k] && path[..m] == path[..k] + path[k..][..m - k];
      if AllZero(q[k..][..m - k]) {
        assert q[k..][..m - k] == path[k..][..m - k];
      }
      if q[..m] == path[..m] {
        assert q[k..][..m - k] == q[..m][k..] == path[..m][k..] == path[k..][..m - k];
      }
    }
  }

  /** A new branch of blocks `blks` hangs on the free slot at the end of path[..k]. */
  ghost predicate NewAt(f: File, f': File, path: seq<nat>, k: nat, disk': Disk, blks: seq<nat>) {
    && IsFull(path) && 1 <= k < |path| && AllZero(path[k..]) && IsPath(path[..k])
    && Chained(disk', blks, |path| - k) && Fresh(blks)
    && Grafted(f, f', path[..k], disk', blks[0]) && FilePtr(f, path[..k]) == 0
  }

  lemma BelowGraft(path: seq<nat>, k: nat, q: seq<nat>)
    requires IsFull(path) && IsPath(q) && 1 <= k < |path| && path[..k] <= q
    ensures q[0] == path[0] && k <= |q| <= |path| && InRange(q[k..]) && (|q| == |path| ==> IsFull(q))
    ensures q[..k] == path[..k] && q == path[..k] + q[k..] && path == path[..k] + path[k..]
  {
    assert q[0] == path[..k][0];
    assert q[k..] == q[1..][k - 1..];
  }

  /** A full path below the graft. */
  lemma GraftedAt(f: File, f': File, path: seq<nat>, k: nat, disk': Disk, blks: seq<nat>, q: seq<nat>)
    requires NewAt(f, f', path, k, disk', blks) && IsFull(q)
    ensures var data := blks[|path| - k..];
      FilePtr(f', q) == if InRun(q, path, |data|) then data[q[|path| - 1] - path[|path| - 1]] else FilePtr(f, q)
  {
    var ind, m := |path| - k, |path| - 1;
    var at, data := path[..k], blks[ind..];
    assert |data| >= 1;
    hide Chained, Fresh, PtrAt, FilePtr;
    RunBelow(path, k, q, |data|);
    assert path[m] == path[k..][m - k] == 0;
    if at <= q {
      BelowGraft(path, k, q);
      hide InRange, IsPath, IsFull;
      NewBranchPtr(disk', blks, ind, q[k..]);
      ZeroPrefix(f, q, k);
      assert q[k..][ind - 1] == q[m];
    }
  }

  /** The pointer blocks of the new branch lie on the path to its first data block. */
  lemma GraftedPrefix(path: seq<nat>, k: nat, disk': Disk, blks: seq<nat>, q: seq<nat>)
    requires IsFull(path) && 1 <= k < |path| && AllZero(path[k..]) && Chained(disk', blks, |path| - k) && Fresh(blks)
    requires IsPath(q) && path[..k] <= q && |q| < |path| && PtrAt(disk', blks[0], q[k..]) != 0
    ensures q <= path
  {
    BelowGraft(path, k, q);
    var r := q[k..];
    hide Chained, Fresh, PtrAt, IsPath, IsFull;
    if r != [] {
      NewBranchPtr(disk', blks, |path| - k, r);
      assert forall i :: 0 <= i < |r| - 1 ==> r[i] == r[..|r| - 1][i];
      assert r == path[k..][..|r|];
    }
  }

  /** Data is reached through every pointer of the new branch. */
  lemma GraftedLean(f: File, f': File, path: seq<nat>, k: nat, disk': Disk, blks: seq<nat>, q: seq<nat>)
    requires NewAt(f, f', path, k, disk', blks) && path[..k] <= q && IsPath(q) && FilePtr(f', q) != 0
    ensures LeadsToData(f', q)
  {
    BelowGraft(path, k, q);
    if |q| == |path| {
      assert Leads(f', q, q);
    } else {
      assert blks[|path| - k] in blks && blks[|path| - k..][0] == blks[|path| - k];
      hide Chained, PtrAt, FilePtr, InRange;
      GraftedPrefix(path, k, disk', blks, q);
      GraftedAt(f, f', path, k, disk', blks, path);
      assert Leads(f', q, path);
    }
  }

  lemma GraftedElsewhere(f: File, f': File, path: seq<nat>, k: nat, disk': Disk, blks: seq<nat>, q: seq<nat>)
    requires NewAt(f, f', path, k, disk', blks) && Lean(f) && !(path[..k] <= q) && IsPath(q) && FilePtr(f', q) != 0
    ensures LeadsToData(f', q)
  {
    hide Chained, PtrAt, FilePtr, InRange, Fresh, Lean;
    var e := LeanAt(f, q);
    if path[..k] <= e {
      BelowGraft(path, k, e);
      ZeroPrefix(f, e, k);
    }
    assert Leads(f', q, e);
  }

  /** A new branch maps exactly its data. */
  lemma GraftGrows(f: File, f': File, path: seq<nat>, k: nat, disk': Disk, blks: seq<nat>)
    requires NewAt(f, f', path, k, disk', blks)
    ensures Grown(f, f', path, blks[|path| - k..])
  {
    var data := blks[|path| - k..];
    assert |f.slots| == SLOTS == |f'.slots| && path != [];
    hide FilePtr, NewAt, Lean, IsFull, IsPath, InRun;
    forall q | IsFull(q)
      ensures FilePtr(f', q) == if InRun(q, path, |data|) then data[q[|path| - 1] - path[|path| - 1]] else FilePtr(f, q)
    {
      GraftedAt(f, f', path, k, disk', blks, q);
    }
    if Lean(f) {
      GraftStaysLean(f, f', path, k, disk', blks);
    }
  }

  lemma GraftStaysLean(f: File, f': File, path: seq<nat>, k: nat, disk': Disk, blks: seq<nat>)
    requires NewAt(f, f', path, k, disk', blks) && Lean(f)
    ensures Lean(f')
  {
    assert |f.slots| == SLOTS == |f'.slots| && 1 <= k < |path|;
    forall q: seq<nat> | IsPath(q) && FilePtr(f', q) != 0 ensures LeadsToData(f', q) {
      hide *;
      if path[..k] <= q {
        GraftedLean(f, f', path, k, disk', blks, q);
      } else {
        GraftedElsewhere(f, f', path, k, disk', blks, q);
      }
    }
  }

  // ------------------------------------------------------ logical block numbers

  /** Logical blocks from `l` on are mapped to `data`, all others as before. */
  ghost predicate MapsMore(f: File, f': File, l: int, data: seq<nat>) {
    |f.slots| == SLOTS == |f'.slots| &&
    forall b :: 0 <= b < MAX_BLOCKS ==> Mapped(f', b) == if l <= b < l + |data| then data[b - l] else Mapped(f, b)
  }

  lemma RunIsAlong(path: seq<nat>, q: seq<nat>, n: nat)
    requires path != [] && InRun(q, path, n)
    ensures q == Along(path, q[|path| - 1] - path[|path| - 1])
  {
    var m := |path| - 1;
    assert q == q[..m] + [q[m]];
  }

  /** The blocks of a run are consecutive. */
  lemma RunIsBlocks(l: int, b: int, n: nat)
    requires 0 <= l < MAX_BLOCKS && n <= Boundary(l) + 1 && 0 <= b < MAX_BLOCKS
    ensures var path, q := BlockToPath(l), BlockToPath(b);
      InRun(q, path, n) == (l <= b < l + n) && (InRun(q, path, n) ==> q[|path| - 1] - path[|path| - 1] == b - l)
  {
    var path, q := BlockToPath(l), BlockToPath(b);
    var m := |path| - 1;
    hide BlockToPath, Boundary;
    if l <= b < l + n {
      BoundaryCounts(l, b - l);
      assert q[..m] == path[..m];
    } else if InRun(q, path, n) {
      var i: nat := q[m] - path[m];
      RunIsAlong(path, q, n);
      BoundaryCounts(l, i);
      PathsOrdered(b, l + i);
    }
  }

  lemma GrownMaps(f: File, f': File, l: int, data: seq<nat>)
    requires 0 <= l < MAX_BLOCKS && Grown(f, f', BlockToPath(l), data) && |data| <= Boundary(l) + 1
    ensures MapsMore(f, f', l, data)
  {
    hide FilePtr, BlockToPath, Boundary, IsFull, Lean, InRun;
    forall b | 0 <= b < MAX_BLOCKS
      ensures Mapped(f', b) == if l <= b < l + |data| then data[b - l] else Mapped(f, b)
    {
      PathOfBlock(b);
      RunIsBlocks(l, b, |data|);
    }
  }

  /** Exactly the first `n` logical blocks are mapped: the file has no holes. */
  ghost predicate HoleFree(f: File, n: int) {
    |f.slots| == SLOTS && forall b :: 0 <= b < MAX_BLOCKS ==> (Mapped(f, b) != 0 <==> b < n)
  }

  /** The first unmapped block of a file without holes can be appended: every pointer block
      that is missing would be entered at its first slot. */
  lemma AppendAllowed(f: File, n: int)
    requires HoleFree(f, n) && 0 <= n < MAX_BLOCKS
    ensures (PathOfBlock(n); AppendsAt(f, BlockToPath(n)))
  {
    var p := BlockToPath(n);
    PathOfBlock(n);
    forall j | 1 <= j < |p| && IsPath(p[..j]) && FilePtr(f, p[..j]) == 0 ensures p[j] == 0 {
      if p[j] != 0 {
        var q := p[..j] + Zeroes(|p| - j);
        FirstBelow(p, j, q);
        BlockOfPath(q);
        PrecedesAt(q, p, j);
        PrecedesMeans(q, p);
        assert Mapped(f, PathToBlock(q)) == FilePtr(f, q) != 0;
        ZeroPrefix(f, q, j);
        assert false;
      }
    }
  }

  lemma FirstBelow(p: seq<nat>, j: nat, q: seq<nat>)
    requires IsFull(p) && 1 <= j < |p| && q == p[..j] + Zeroes(|p| - j)
    ensures IsFull(q) && q[..j] == p[..j] && q[j] == 0
  {
    assert q[1..] == p[1..][..j - 1] + Zeroes(|p| - j);
  }

  lemma AppendKeepsHoleFree(f: File, f': File, n: int, data: seq<nat>)
    requires HoleFree(f, n) && MapsMore(f, f', n, data) && 0 !in data && 0 <= n
    ensures HoleFree(f', n + |data|)
  {
  }

  lemma TruncateKeepsHoleFree(f: File, f': File, n: int, m: int)
    requires HoleFree(f, n) && MapsUpTo(f, f', m)
    ensures HoleFree(f', if m < n then m else n)
  {
  }

  // ------------------------------------------------------- no block is shared

  lemma {:induction false} PathsApart(disk: Disk, nr: nat, d: nat, p: seq<nat>, q: seq<nat>)
    requires Tree(disk, nr, d) && |p| <= d && |q| <= d && InRange(p) && InRange(q)
    requires PtrAt(disk, nr, p) == PtrAt(disk, nr, q) != 0
    ensures p == q
    decreases d
  {
    if p == [] && q == [] {
    } else if p == [] {
      KidHolds(disk, nr, d, q);
    } else if q == [] {
      KidHolds(disk, nr, d, p);
    } else {
      KidHolds(disk, nr, d, p);
      KidHolds(disk, nr, d, q);
      var row := disk[nr];
      PathsApart(disk, row[p[0]], d - 1, p[1..], q[1..]);
      assert p == [p[0]] + p[1..] && q == [q[0]] + q[1..];
    }
  }

  lemma KidHolds(disk: Disk, nr: nat, d: nat, p: seq<nat>)
    requires Tree(disk, nr, d) && 1 <= |p| <= d && InRange(p) && PtrAt(disk, nr, p) != 0
    ensures nr != 0 && nr in disk && |disk[nr]| == PTRS
    ensures PtrAt(disk, nr, p) in Reach(disk, disk[nr][p[0]], d - 1) && Tree(disk, disk[nr][p[0]], d - 1)
    ensures PtrAt(disk, nr, p) == PtrAt(disk, disk[nr][p[0]], p[1..]) != nr
  {
    var kid := disk[nr][p[0]];
    KidsReached(disk, disk[nr], d - 1, p[0]);
    PtrReached(disk, kid, d - 1, p[1..]);
  }

  /** No two logical blocks share a block. */
  lemma MappedOnce(f: File, a: int, b: int)
    requires IsTree(f) && 0 <= a < MAX_BLOCKS && 0 <= b < MAX_BLOCKS && Mapped(f, a) == Mapped(f, b) != 0
    ensures a == b
  {
    PathOfBlock(a);
    PathOfBlock(b);
    var p, q := BlockToPath(a), BlockToPath(b);
    hide BlockToPath, Reach, Tree;
    PtrReached(f.disk, f.slots[p[0]], Level(p[0]), p[1..]);
    PtrReached(f.disk, f.slots[q[0]], Level(q[0]), q[1..]);
    assert p[0] < q[0] ==> SlotReach(f, p[0]) !! SlotReach(f, q[0]);
    assert q[0] < p[0] ==> SlotReach(f, q[0]) !! SlotReach(f, p[0]);
    PathsApart(f.disk, f.slots[p[0]], Level(p[0]), p[1..], q[1..]);
    assert p == [p[0]] + p[1..] && q == [q[0]] + q[1..];
    PathsOrdered(a, b);
  }

  // -------------------------------------------------------- one append, as a whole

  /** The array that holds the slot of logical block `l`, and how far it goes. */
  lemma RunRange(f: File, l: int, path: seq<nat>, keys: seq<nat>)
    requires IsTree(f) && 0 <= l < MAX_BLOCKS && path == BlockToPath(l) && IsPath(path)
    requires Branch(f, path, keys) && |keys| == |path|
    ensures var m := |path| - 1; var up := path[..m];
      && IsRange(f, up, path[m], path[m] + Boundary(l) + 1, 0) && path[m] + Boundary(l) + 1 <= |ArrayAt(f, up)|
      && (m == 0 ==> ArrayAt(f, up) == f.slots && path[0] + Boundary(l) + 1 <= DIRECT)
      && (m > 0 ==> IsPath(up) && keys[m - 1] == FilePtr(f, up) && keys[m - 1] in f.disk && ArrayAt(f, up) == f.disk[keys[m - 1]])
  {
    var m := |path| - 1;
    ArrayRoom(l, path);
    hide FilePtr, IsTree, BlockToPath, Boundary;
    if m > 0 {
      assert IsPath(path[..m]) && keys[m - 1] == FilePtr(f, path[..m]);
      OneDown(f, path, m);
    }
  }

  lemma ArrayRoom(l: int, path: seq<nat>)
    requires 0 <= l < MAX_BLOCKS && path == BlockToPath(l)
    ensures IsFull(path) && path[|path| - 1] + Boundary(l) + 1 <= if |path| == 1 then DIRECT else PTRS
  {
    PathOfBlock(l);
  }

  lemma RunMapped(f: File, l: int, path: seq<nat>, i: nat)
    requires IsTree(f) && 0 <= l < MAX_BLOCKS && i <= Boundary(l) && path == BlockToPath(l)
    requires IsRange(f, path[..|path| - 1], path[|path| - 1], path[|path| - 1] + Boundary(l) + 1, 0)
    ensures var m := |path| - 1;
      l + i < MAX_BLOCKS && Mapped(f, l + i) == ArrayAt(f, path[..m])[path[m] + i]
  {
    var m := |path| - 1;
    BoundaryCounts(l, i);
    PathOfBlock(l + i);
    hide FilePtr, IsTree, BlockToPath, Boundary, IsRange;
    SlotPath(f, path[..m], path[m], path[m] + Boundary(l) + 1, 0, path[m] + i);
  }

  lemma RunUnmapped(f: File, l: int, k: nat, i: nat)
    requires |f.slots| == SLOTS && 0 <= l < MAX_BLOCKS && i <= Boundary(l)
    requires var path := BlockToPath(l); 1 <= k < |path| && IsPath(path[..k]) && FilePtr(f, path[..k]) == 0
    ensures l + i < MAX_BLOCKS && Mapped(f, l + i) == 0
  {
    var path := BlockToPath(l);
    BoundaryCounts(l, i);
    PathOfBlock(l + i);
    var q := BlockToPath(l + i);
    hide FilePtr, BlockToPath, Boundary;
    assert q[..k] == path[..k];
    ZeroPrefix(f, q, k);
  }

  /** New data blocks `data` fill the slots from logical block `l` on. */
  lemma ArrayGrows(f: File, f': File, l: int, data: seq<nat>)
    requires IsTree(f) && 0 <= l < MAX_BLOCKS && 1 <= |data| <= Boundary(l) + 1 && Fresh(data) && Blocks(data) !! FileReach(f)
    requires var path := BlockToPath(l); var m := |path| - 1; var up := path[..m];
      && IsRange(f, up, path[m], path[m] + Boundary(l) + 1, 0) && (m == 0 ==> path[0] + Boundary(l) + 1 <= DIRECT)
      && AreFree(ArrayAt(f, up), path[m], path[m] + |data|)
      && f' == WithArray(f, up, Placed(ArrayAt(f, up), path[m], data))
    ensures IsTree(f') && FileReach(f') == FileReach(f) + Blocks(data)
    ensures MapsMore(f, f', l, data) && (Lean(f) ==> Lean(f'))
  {
    var path := BlockToPath(l);
    var m := |path| - 1;
    PathOfBlock(l);
    assert IsRange(f, path[..m], path[m], path[m] + |data|, 0);
    hide *;
    Fill(f, path[..m], path[m], data);
    FilledGrowsAt(f, f', l, data);
  }

  lemma FilledGrowsAt(f: File, f': File, l: int, data: seq<nat>)
    requires 0 <= l < MAX_BLOCKS && 1 <= |data| <= Boundary(l) + 1 && Fresh(data)
    requires var path := BlockToPath(l); var m := |path| - 1;
      (m == 0 ==> path[0] + |data| <= DIRECT) && Filled(f, f', path[..m], path[m], data)
    ensures MapsMore(f, f', l, data) && (Lean(f) ==> Lean(f'))
  {
    PathOfBlock(l);
    hide BlockToPath, Boundary, FilePtr, Filled, MapsMore, Lean;
    FilledGrows(f, f', BlockToPath(l), data);
    GrownMaps(f, f', l, data);
  }

  /** A new branch `blks` hangs on slot k - 1 of the path of logical block `l`. */
  lemma BranchGrows(f: File, f': File, l: int, path: seq<nat>, k: nat, disk': Disk, blks: seq<nat>)
    requires IsTree(f) && 0 <= l < MAX_BLOCKS && path == BlockToPath(l) && 1 <= k < |path| && IsPath(path)
    requires AppendsAt(f, path) && HasSlot(f, path[..k]) && FilePtr(f, path[..k]) == 0
    requires Chained(disk', blks, |path| - k) && |path| - k < |blks| <= |path| - k + Boundary(l) + 1
    requires Fresh(blks) && Blocks(blks) !! FileReach(f) && SameOn(f.disk, disk', FileReach(f))
    requires HasSlot(File(f.slots, disk'), path[..k]) && f' == FileStored(File(f.slots, disk'), path[..k], blks[0])
    ensures IsTree(f') && FileReach(f') == FileReach(f) + Blocks(blks)
    ensures MapsMore(f, f', l, blks[|path| - k..]) && (Lean(f) ==> Lean(f'))
  {
    hide FilePtr, IsTree, FileReach, BlockToPath, Boundary, Chained, FileStored, HasSlot, AppendsAt, Lean, MapsMore, PtrAt, IsPath,
      IsFull, AllZero, Below, NewAt, Fresh;
    GraftIsNew(f, f', l, path, k, disk', blks);
    GraftGrows(f, f', path, k, disk', blks);
    GrownMaps(f, f', l, blks[|path| - k..]);
  }

  lemma GraftIsNew(f: File, f': File, l: int, path: seq<nat>, k: nat, disk': Disk, blks: seq<nat>)
    requires IsTree(f) && 0 <= l < MAX_BLOCKS && path == BlockToPath(l) && 1 <= k < |path| && IsPath(path)
    requires AppendsAt(f, path) && HasSlot(f, path[..k]) && FilePtr(f, path[..k]) == 0
    requires Chained(disk', blks, |path| - k) && |path| - k < |blks|
    requires Fresh(blks) && Blocks(blks) !! FileReach(f) && SameOn(f.disk, disk', FileReach(f))
    requires HasSlot(File(f.slots, disk'), path[..k]) && f' == FileStored(File(f.slots, disk'), path[..k], blks[0])
    ensures IsTree(f') && FileReach(f') == FileReach(f) + Blocks(blks) && NewAt(f, f', path, k, disk', blks)
  {
    assert |f.slots| == SLOTS;
    hide FilePtr, IsTree, FileReach, BlockToPath, Chained, FileStored, HasSlot, AppendsAt, PtrAt, InRange, AllZero, Fresh, Grafted,
      Blocks, SameOn;
    PathOfBlock(l);
    PrefixPath(path, k);
    ZeroesBelow(f, path, k);
    Graft(f, disk', path[..k], blks, |path| - k);
    StoredSlots(File(f.slots, disk'), path[..k], blks[0]);
  }

  lemma ZeroesBelow(f: File, path: seq<nat>, k: nat)
    requires |f.slots| == SLOTS && IsFull(path) && 1 <= k < |path| && AppendsAt(f, path)
    requires IsPath(path[..k]) && FilePtr(f, path[..k]) == 0
    ensures AllZero(path[k..])
  {
    hide FilePtr;
    forall j | k <= j < |path| ensures path[j] == 0 {
      PrefixPath(path, j);
      ZeroPrefix(f, path[..j], k);
      assert path[..j][..k] == path[..k];
    }
  }

  /** Storing one pointer is filling one slot. */
  lemma StoredIsPlaced(f: File, at: seq<nat>, v: nat)
    requires HasSlot(f, at)
    ensures var up, i := at[..|at| - 1], at[|at| - 1];
      HasArray(f, up) && i < |ArrayAt(f, up)| && WithArray(f, up, Placed(ArrayAt(f, up), i, [v])) == FileStored(f, at, v)
  {
    var n := |at| - 1;
    if n > 0 {
      PrefixPath(at, n);
      assert at[..n][1..] == at[1..n];
      ArrayPresent(f, at[..n]);
      assert at[1..][n - 1] == at[n];
    }
    var row := ArrayAt(f, at[..n]);
    assert Placed(row, at[n], [v]) == row[at[n] := v];
  }
}
