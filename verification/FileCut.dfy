/** Cutting a file at a path: which paths lie at or after the cut, in the order in which
    truncation reaches them, and which parts of the branch to the cut may stay. */
module FileCut {
  import opened PointerTree
  import opened FileTree
  import opened FilePrune
  import opened BlockPath

  /** `q` runs through `cut` (when `all`), or leaves it to the right at level `i` or below. */
  ghost predicate Gone(q: seq<nat>, cut: seq<nat>, i: nat, all: bool) {
    || (all && cut <= q)
    || (i <= |q| && i <= |cut| && q[..i] == cut[..i] && Precedes(cut[i..], q[i..]))
  }

  ghost predicate CutOff(f: File, f': File, cut: seq<nat>, i: nat, all: bool) {
    |f.slots| == SLOTS == |f'.slots| &&
    forall q :: IsPath(q) ==> FilePtr(f', q) == if Gone(q, cut, i, all) then 0 else FilePtr(f, q)
  }

  /** The same, once the inode's own slots up to `s` are done too. */
  ghost predicate CutSlots(f: File, f': File, cut: seq<nat>, s: nat) {
    |f.slots| == SLOTS == |f'.slots| && cut != [] &&
    forall q :: IsPath(q) ==> FilePtr(f', q) == if Gone(q, cut, 1, true) || cut[0] < q[0] < s then 0 else FilePtr(f, q)
  }

  lemma GoneStep(q: seq<nat>, cut: seq<nat>, i: nat, all: bool)
    requires IsPath(q) && 1 <= i < |cut|
    ensures Gone(q, cut, i, all) <==> Gone(q, cut, i + 1, all) || Through(q, cut[..i], cut[i] + 1, PTRS)
  {
    if i < |q| && q[..i] == cut[..i] {
      assert q[1..][i - 1] == q[i] < PTRS;
      assert q[..i + 1] == q[..i] + [q[i]] && cut[..i + 1] == cut[..i] + [cut[i]];
      assert cut[i..][1..] == cut[i + 1..] && q[i..][1..] == q[i + 1..];
    }
  }

  lemma GoneEnd(q: seq<nat>, cut: seq<nat>)
    requires cut != []
    ensures var p := |cut| - 1;
      !Gone(q, cut, p + 1, false) && (cut <= q <==> Through(q, cut[..p], cut[p], cut[p] + 1))
  {
    var p := |cut| - 1;
    assert cut == cut[..p] + [cut[p]];
    assert cut[p + 1..] == [];
    if Through(q, cut[..p], cut[p], cut[p] + 1) {
      assert q[..p + 1] == q[..p] + [q[p]];
    }
  }

  /** A survivor of the branch itself. */
  lemma BranchStays(cut: seq<nat>, i: nat, all: bool)
    requires 1 <= i < |cut|
    ensures !Gone(cut[..i], cut, i, all) && !Gone(cut[..i], cut, i + 1, all)
  {
    assert cut[..i][i..] == [];
  }

  // ------------------------------------------------------- steps of a truncation

  /** Detaching the slot at the cut. */
  lemma CutTop(f: File, f': File, cut: seq<nat>)
    requires cut != [] && Pruned(f, f', cut[..|cut| - 1], cut[|cut| - 1], cut[|cut| - 1] + 1)
    ensures CutOff(f, f', cut, |cut|, true)
  {
    forall q | IsPath(q) ensures FilePtr(f', q) == if Gone(q, cut, |cut|, true) then 0 else FilePtr(f, q) {
      GoneEnd(q, cut);
    }
  }

  lemma CutNothing(f: File, cut: seq<nat>)
    requires cut != [] && |f.slots| == SLOTS
    ensures CutOff(f, f, cut, |cut|, false)
  {
    forall q | IsPath(q) ensures !Gone(q, cut, |cut|, false) {
      GoneEnd(q, cut);
    }
  }

  /** Clearing the end of the array at level `i`, from just after the branch, or from the
      branch on when the top has not been detached. */
  lemma CutEnd(f: File, f1: File, f': File, cut: seq<nat>, i: nat, all: bool)
    requires 1 <= i < |cut| && CutOff(f, f1, cut, i + 1, all) && (!all ==> i == |cut| - 1)
    requires Pruned(f1, f', cut[..i], if all then cut[i] + 1 else cut[i], PTRS)
    ensures CutOff(f, f', cut, i, true)
  {
    forall q | IsPath(q) ensures FilePtr(f', q) == if Gone(q, cut, i, true) then 0 else FilePtr(f, q) {
      GoneStep(q, cut, i, true);
      GoneEnd(q, cut);
      if cut[..i] <= q && i < |q| { assert q[1..][i - 1] == q[i] < PTRS; }
    }
  }

  lemma CutLevelOne(f: File, f': File, cut: seq<nat>)
    requires cut != [] && CutOff(f, f', cut, 1, true)
    ensures CutSlots(f, f', cut, cut[0] + 1)
  {
  }

  lemma CutDirect(f: File, f': File, lo: nat)
    requires lo < DIRECT && Pruned(f, f', [], lo, DIRECT)
    ensures CutSlots(f, f', [lo], DIRECT)
  {
    forall q | IsPath(q) ensures Gone(q, [lo], 1, true) <==> q[0] == lo {
      assert [lo][1..] == [];
      assert [lo] <= q <==> q[0] == lo;
    }
  }

  /** Clearing slots lo..hi of the inode. */
  lemma CutMoreSlots(f: File, f1: File, f': File, cut: seq<nat>, lo: nat, hi: nat)
    requires CutSlots(f, f1, cut, lo) && Pruned(f1, f', [], lo, hi) && cut[0] < lo <= hi
    ensures CutSlots(f, f', cut, hi)
  {
  }

  /** Everything at or after the cut is gone. */
  lemma CutDone(f: File, f': File, cut: seq<nat>)
    requires CutSlots(f, f', cut, SLOTS)
    ensures CutOff(f, f', cut, 0, true)
  {
    forall q | IsPath(q) ensures FilePtr(f', q) == if Gone(q, cut, 0, true) then 0 else FilePtr(f, q) {
      assert cut[0..] == cut && q[0..] == q;
      assert q[..1] == [q[0]] && cut[..1] == [cut[0]];
      assert q[..0] == cut[..0];
    }
  }

  // -------------------------------------------------- where the branch is cut

  /** Below level `p` the branch to `o` holds nothing to the left of `o`. */
  ghost predicate NothingLeft(f: File, o: seq<nat>, p: nat)
    requires |f.slots| == SLOTS && p < |o|
  {
    forall q :: IsFull(q) && o[..p + 1] <= q && Precedes(q, o) ==> FilePtr(f, q) == 0
  }

  /** Some pointer of the array at level `p` lies to the left of `o`. */
  ghost predicate SomethingLeft(f: File, o: seq<nat>, p: nat)
    requires |f.slots| == SLOTS && IsPath(o) && 1 <= p < |o|
  {
    exists i :: LeftOf(f, o, p, i)
  }

  ghost predicate LeftOf(f: File, o: seq<nat>, p: nat, i: nat)
    requires |f.slots| == SLOTS && IsPath(o) && 1 <= p < |o|
  {
    i < o[p] && IsPath(o[..p] + [i]) && FilePtr(f, o[..p] + [i]) != 0
  }

  lemma {:induction false} PrecedesOneWay(q: seq<nat>, o: seq<nat>)
    requires Precedes(o, q)
    ensures q != o && !Precedes(q, o)
    decreases |o|
  {
    if q[0] == o[0] { PrecedesOneWay(q[1..], o[1..]); }
  }

  /** Against a path, the cut above it compares like the path itself, or is a prefix. */
  lemma {:induction false} CutIsOrder(q: seq<nat>, o: seq<nat>, p: nat)
    requires p < |o|
    ensures Precedes(o[..p + 1], q) ==> Precedes(o, q)
    ensures Precedes(o, q) ==> Precedes(o[..p + 1], q) || o[..p + 1] <= q
    decreases p
  {
    var cut := o[..p + 1];
    assert cut[0] == o[0];
    if q != [] && q[0] == o[0] {
      if p > 0 {
        CutIsOrder(q[1..], o[1..], p - 1);
        assert cut[1..] == o[1..][..p];
        assert cut <= q <==> cut[1..] <= q[1..];
      } else {
        assert cut[1..] == [] && !Precedes(cut[1..], q[1..]);
        assert cut == [q[0]] && cut <= q;
      }
    }
  }

  lemma GoneFromRoot(q: seq<nat>, cut: seq<nat>)
    ensures Gone(q, cut, 0, true) <==> (cut <= q || Precedes(cut, q))
  {
    assert cut[0..] == cut && q[0..] == q && q[..0] == cut[..0];
  }

  lemma {:induction false} Trichotomy(p: seq<nat>, q: seq<nat>)
    requires |p| == |q|
    ensures p == q || Precedes(p, q) || Precedes(q, p)
  {
    if p != [] {
      Trichotomy(p[1..], q[1..]);
      assert p == [p[0]] + p[1..] && q == [q[0]] + q[1..];
    }
  }

  /** So a data block is cut off exactly when its path is not before `o`. */
  lemma FullOrder(p: seq<nat>, q: seq<nat>)
    requires IsFull(p) && IsFull(q)
    ensures p == q || Precedes(p, q) || Precedes(q, p)
  {
    if p[0] == q[0] { Trichotomy(p, q); }
  }

  /** Cutting at level `p` of the branch to `o` unmaps `o` and everything after it, and
      nothing before it. */
  lemma CutMaps(f: File, f': File, o: seq<nat>, p: nat, q: seq<nat>)
    requires IsFull(o) && p < |o| && IsFull(q) && CutOff(f, f', o[..p + 1], 0, true) && NothingLeft(f, o, p)
    ensures FilePtr(f', q) == if Precedes(q, o) then FilePtr(f, q) else 0
  {
    GoneFromRoot(q, o[..p + 1]);
    CutIsOrder(q, o, p);
    FullOrder(q, o);
    if Precedes(q, o) { PrecedesOneWay(o, q); }
    if Precedes(o, q) { PrecedesOneWay(q, o); }
  }

  lemma {:induction false} PtrAppend(disk: Disk, nr: nat, a: seq<nat>, b: seq<nat>)
    ensures PtrAt(disk, nr, a + b) == PtrAt(disk, PtrAt(disk, nr, a), b)
    decreases |a|
  {
    if a == [] {
      assert a + b == b;
    } else if nr == 0 || nr !in disk || a[0] >= |disk[nr]| {
      ZeroPtr(disk, b);
    } else {
      PtrAppend(disk, disk[nr][a[0]], a[1..], b);
      assert (a + b)[1..] == a[1..] + b;
    }
  }

  /** Nothing is mapped below a zero pointer. */
  lemma ZeroPrefix(f: File, q: seq<nat>, j: nat)
    requires |f.slots| == SLOTS && IsPath(q) && 1 <= j <= |q|
    ensures IsPath(q[..j]) && (FilePtr(f, q[..j]) == 0 ==> FilePtr(f, q) == 0)
  {
    assert q[..j][1..] == q[1..][..j - 1];
    assert q[1..] == q[1..][..j - 1] + q[j..];
    PtrAppend(f.disk, f.slots[q[0]], q[1..][..j - 1], q[j..]);
    ZeroPtr(f.disk, q[j..]);
  }

  lemma {:induction false} FirstDifference(q: seq<nat>, o: seq<nat>) returns (j: nat)
    requires Precedes(q, o)
    ensures j < |q| && j < |o| && q[..j] == o[..j] && q[j] < o[j]
    decreases |q|
  {
    if q[0] < o[0] {
      j := 0;
    } else {
      var i := FirstDifference(q[1..], o[1..]);
      j := i + 1;
      assert q[..j] == [q[0]] + q[1..][..i] && o[..j] == [o[0]] + o[1..][..i];
    }
  }

  /** All pointers of the array at level `j` of the branch before the branch's own are zero. */
  ghost predicate LeftIsZero(f: File, o: seq<nat>, j: nat)
    requires |f.slots| == SLOTS && IsPath(o) && 1 <= j < |o|
  {
    forall i :: !LeftOf(f, o, j, i)
  }

  /** What nvfuse_find_shared has seen when it stops at level `p`. */
  lemma NothingLeftBelow(f: File, o: seq<nat>, k: nat, m: nat, p: nat)
    requires |f.slots| == SLOTS && IsFull(o) && p <= m < k <= |o| && forall j :: k <= j < |o| ==> o[j] == 0
    requires IsPath(o[..m + 1]) && (m == k - 1 || FilePtr(f, o[..m + 1]) == 0)
    requires forall j :: p < j <= m ==> LeftIsZero(f, o, j)
    ensures NothingLeft(f, o, p)
  {
    hide FilePtr;
    forall q | IsFull(q) && o[..p + 1] <= q && Precedes(q, o) ensures FilePtr(f, q) == 0 {
      var j := FirstDifference(q, o);
      if j <= m {
        assert LeftIsZero(f, o, j) && !LeftOf(f, o, j, q[j]);
        assert q[..j + 1] == o[..j] + [q[j]];
        ZeroPrefix(f, q, j + 1);
      } else {
        assert q[..m + 1] == q[..j][..m + 1] == o[..j][..m + 1] == o[..m + 1];
        ZeroPrefix(f, q, m + 1);
      }
    }
  }

  // ----------------------------------------------- pointer blocks that are needed

  /** Every pointer leads to data: there are no empty pointer blocks. */
  ghost predicate Lean(f: File)
    requires |f.slots| == SLOTS
  {
    forall q {:trigger LeadsToData(f, q)} :: IsPath(q) && FilePtr(f, q) != 0 ==> LeadsToData(f, q)
  }

  ghost predicate LeadsToData(f: File, q: seq<nat>)
    requires |f.slots| == SLOTS
  {
    exists e :: Leads(f, q, e)
  }

  ghost predicate Leads(f: File, q: seq<nat>, e: seq<nat>)
    requires |f.slots| == SLOTS
  {
    IsFull(e) && q <= e && FilePtr(f, e) != 0
  }

  lemma {:induction false} PrecedesExtends(q: seq<nat>, o: seq<nat>, e: seq<nat>)
    requires Precedes(q, o) && q <= e
    ensures Precedes(e, o) && !(o <= e)
    decreases |q|
  {
    if q[0] == o[0] { PrecedesExtends(q[1..], o[1..], e[1..]); }
  }

  lemma {:induction false} ApartOrOrdered(q: seq<nat>, o: seq<nat>)
    ensures q <= o || o <= q || Precedes(q, o) || Precedes(o, q)
    decreases |q|
  {
    if q != [] && o != [] && q[0] == o[0] {
      ApartOrOrdered(q[1..], o[1..]);
      assert q == [q[0]] + q[1..] && o == [o[0]] + o[1..];
    }
  }

  lemma {:induction false} PrecedesAt(q: seq<nat>, o: seq<nat>, j: nat)
    requires j < |q| && j < |o| && q[..j] == o[..j] && q[j] < o[j]
    ensures Precedes(q, o)
    decreases j
  {
    if j > 0 {
      assert q[0] == q[..j][0] == o[0];
      assert q[1..][..j - 1] == q[..j][1..] && o[1..][..j - 1] == o[..j][1..];
      PrecedesAt(q[1..], o[1..], j - 1);
    }
  }

  lemma LeanAt(f: File, q: seq<nat>) returns (e: seq<nat>)
    requires |f.slots| == SLOTS && Lean(f) && IsPath(q) && FilePtr(f, q) != 0
    ensures Leads(f, q, e)
  {
    assert LeadsToData(f, q);
    e :| Leads(f, q, e);
  }

  lemma CutAt(f: File, f': File, cut: seq<nat>, q: seq<nat>)
    requires CutOff(f, f', cut, 0, true) && IsPath(q)
    ensures FilePtr(f', q) == if cut <= q || Precedes(cut, q) then 0 else FilePtr(f, q)
  {
    GoneFromRoot(q, cut);
  }

  /** A path that comes before the cut still leads to the same data. */
  lemma StillLeads(f: File, f': File, cut: seq<nat>, q: seq<nat>, s: seq<nat>) returns (e: seq<nat>)
    requires CutOff(f, f', cut, 0, true) && Lean(f) && q <= s && Precedes(s, cut) && IsPath(s) && FilePtr(f, s) != 0
    ensures Leads(f', q, e)
  {
    assert |f.slots| == SLOTS == |f'.slots|;
    hide FilePtr, CutOff, Lean;
    e := LeanAt(f, s);
    PrecedesExtends(s, cut, e);
    PrecedesOneWay(cut, e);
    CutAt(f, f', cut, e);
  }

  /** Cutting where something is left above the cut leaves no empty pointer block behind. */
  lemma CutStaysLean(f: File, f': File, o: seq<nat>, p: nat)
    requires IsFull(o) && p < |o| && CutOff(f, f', o[..p + 1], 0, true) && Lean(f)
    requires p > 0 ==> SomethingLeft(f, o, p)
    ensures Lean(f')
  {
    var cut := o[..p + 1];
    forall q | IsPath(q) && FilePtr(f', q) != 0 ensures LeadsToData(f', q) {
      hide FilePtr, CutOff, Lean, Leads, Precedes;
      CutAt(f, f', cut, q);
      var e;
      if q <= cut {
        var i :| LeftOf(f, o, p, i);
        var s := o[..p] + [i];
        assert |q| <= p && q <= s;
        PrecedesAt(s, cut, p);
        e := StillLeads(f, f', cut, q, s);
      } else {
        ApartOrOrdered(q, cut);
        e := StillLeads(f, f', cut, q, q);
      }
    }
  }

  // ------------------------------------------------ reachability is having a path

  lemma {:induction false} ReachedAlong(disk: Disk, nr: nat, d: nat, x: nat) returns (path: seq<nat>)
    requires Tree(disk, nr, d) && x in Reach(disk, nr, d)
    ensures |path| <= d && InRange(path) && PtrAt(disk, nr, path) == x && x != 0
    decreases d
  {
    if x == nr {
      path := [];
    } else {
      var row := disk[nr];
      assert x in ReachAll(disk, row, d - 1);
      var i :| 0 <= i < |row| && x in Reach(disk, row[i], d - 1);
      var rest := ReachedAlong(disk, row[i], d - 1, x);
      path := [i] + rest;
      assert path[1..] == rest;
    }
  }

  lemma FileReachedAlong(f: File, x: nat) returns (path: seq<nat>)
    requires IsTree(f) && x in FileReach(f)
    ensures IsPath(path) && FilePtr(f, path) == x && x != 0
  {
    var i :| 0 <= i < |f.slots| && x in SlotReach(f, i);
    var rest := ReachedAlong(f.disk, f.slots[i], Level(i), x);
    path := [i] + rest;
    assert path[1..] == rest;
  }

  /** Block `x` lies on the way to data before `o`. */
  ghost predicate Needed(f: File, o: seq<nat>, x: nat)
    requires |f.slots| == SLOTS
  {
    exists q, e :: IsPath(q) && FilePtr(f, q) == x && Leads(f, q, e) && Precedes(e, o)
  }

  /** After the cut, the file consists of exactly the blocks needed for what is kept. */
  lemma SurvivorsAreNeeded(f: File, f': File, o: seq<nat>, p: nat, x: nat)
    requires IsTree(f) && IsTree(f') && IsFull(o) && p < |o| && CutOff(f, f', o[..p + 1], 0, true) && NothingLeft(f, o, p)
    requires Lean(f) && (p > 0 ==> SomethingLeft(f, o, p))
    ensures x in FileReach(f') <==> Needed(f, o, x)
  {
    CutStaysLean(f, f', o, p);
    hide FilePtr, CutOff, Lean, Precedes, IsTree, NothingLeft, SomethingLeft, FileReach;
    if x in FileReach(f') {
      var q := FileReachedAlong(f', x);
      var e := LeanAt(f', q);
      CutMaps(f, f', o, p, e);
      CutAt(f, f', o[..p + 1], q);
      assert Leads(f, q, e);
    }
    if Needed(f, o, x) {
      NeededSurvives(f, f', o, p, x);
    }
  }

  lemma NeededSurvives(f: File, f': File, o: seq<nat>, p: nat, x: nat)
    requires IsTree(f') && IsFull(o) && p < |o| && CutOff(f, f', o[..p + 1], 0, true) && NothingLeft(f, o, p)
    requires Needed(f, o, x)
    ensures x in FileReach(f')
  {
    assert |f.slots| == SLOTS == |f'.slots|;
    hide FilePtr, CutOff, Precedes, IsTree, NothingLeft, FileReach;
    var q, e :| IsPath(q) && FilePtr(f, q) == x && Leads(f, q, e) && Precedes(e, o);
    CutMaps(f, f', o, p, e);
    ZeroPrefix(f', e, |q|);
    assert e[..|q|] == q;
    CutAt(f, f', o[..p + 1], q);
    HasSlotIff(f', q);
  }

  // ------------------------------------------------------------------ branches

  /** `keys` are the pointers along `path`; only the last may be zero. */
  ghost predicate Branch(f: File, path: seq<nat>, keys: seq<nat>)
    requires |f.slots| == SLOTS && IsPath(path)
  {
    1 <= |keys| <= |path| &&
    forall j :: 1 <= j <= |keys| ==>
      IsPath(path[..j]) && keys[j - 1] == FilePtr(f, path[..j]) && (j < |keys| ==> keys[j - 1] != 0)
  }

  lemma PrefixPath(path: seq<nat>, j: nat)
    requires IsPath(path) && 1 <= j <= |path|
    ensures IsPath(path[..j]) && Below(path[..j]) == Level(path[0]) - (j - 1)
  {
    assert path[..j][1..] == path[1..][..j - 1];
  }

  lemma FirstDown(f: File, path: seq<nat>)
    requires |f.slots| == SLOTS && IsPath(path)
    ensures Branch(f, path, [f.slots[path[0]]])
  {
    PrefixPath(path, 1);
  }

  lemma OneDown(f: File, path: seq<nat>, j: nat)
    requires IsTree(f) && IsPath(path) && 1 <= j < |path| && IsPath(path[..j]) && FilePtr(f, path[..j]) != 0
    ensures IsRange(f, path[..j], 0, PTRS, Level(path[0]) - j) && path[j] < PTRS
    ensures var nr := FilePtr(f, path[..j]);
      nr in f.disk && |f.disk[nr]| == PTRS && ArrayAt(f, path[..j]) == f.disk[nr] &&
      forall i :: 0 <= i < PTRS ==> IsPath(path[..j] + [i]) && FilePtr(f, path[..j] + [i]) == f.disk[nr][i]
    ensures IsPath(path[..j + 1]) && path[..j + 1] == path[..j] + [path[j]]
  {
    var up, e: nat := path[..j], Level(path[0]) - j;
    PrefixPath(path, j);
    PrefixPath(path, j + 1);
    assert path[..j + 1] == up + [path[j]];
    assert path[1..][j - 1] == path[j];
    ArrayPresent(f, up);
    assert IsRange(f, up, 0, PTRS, e);
    hide IsRange, FilePtr, IsTree;
    forall i | 0 <= i < PTRS ensures IsPath(up + [i]) && FilePtr(f, up + [i]) == ArrayAt(f, up)[i] {
      SlotPath(f, up, 0, PTRS, e, i);
    }
  }

  /** The pointer behind the last one of a branch. */
  lemma LongerBranch(f: File, path: seq<nat>, keys: seq<nat>)
    requires IsTree(f) && IsPath(path) && Branch(f, path, keys) && |keys| < |path| && keys[|keys| - 1] != 0
    ensures var nr := keys[|keys| - 1]; nr in f.disk && path[|keys|] < |f.disk[nr]|
    ensures Branch(f, path, keys + [f.disk[keys[|keys| - 1]][path[|keys|]]])
  {
    var j := |keys|;
    assert |f.slots| == SLOTS && IsPath(path[..j]);
    hide IsTree, IsPath, FilePtr;
    assert keys[j - 1] == FilePtr(f, path[..j]);
    OneDown(f, path, j);
    var longer := keys + [f.disk[keys[j - 1]][path[j]]];
    forall i | 1 <= i <= |longer|
      ensures IsPath(path[..i]) && longer[i - 1] == FilePtr(f, path[..i]) && (i < |longer| ==> longer[i - 1] != 0)
    {
      if i <= j { assert longer[i - 1] == keys[i - 1]; }
    }
  }

  lemma LongerPath(f: File, o: seq<nat>, k: nat, keys: seq<nat>)
    requires |f.slots| == SLOTS && IsPath(o) && 1 <= k <= |o| && IsPath(o[..k]) && Branch(f, o[..k], keys)
    ensures Branch(f, o, keys)
  {
    forall j | 1 <= j <= |keys|
      ensures IsPath(o[..j]) && keys[j - 1] == FilePtr(f, o[..j]) && (j < |keys| ==> keys[j - 1] != 0)
    {
      assert o[..k][..j] == o[..j];
    }
  }

  /** Looking at the start of the array at level `p` tells whether something is to the left. */
  lemma LeftSeen(f: File, o: seq<nat>, p: nat)
    requires IsTree(f) && IsPath(o) && 1 <= p < |o| && IsPath(o[..p]) && FilePtr(f, o[..p]) != 0
    ensures FilePtr(f, o[..p]) in f.disk && o[p] < PTRS == |f.disk[FilePtr(f, o[..p])]|
    ensures (forall i :: 0 <= i < o[p] ==> f.disk[FilePtr(f, o[..p])][i] == 0) ==> LeftIsZero(f, o, p)
    ensures !(forall i :: 0 <= i < o[p] ==> f.disk[FilePtr(f, o[..p])][i] == 0) ==> SomethingLeft(f, o, p)
  {
    OneDown(f, o, p);
    hide FilePtr, IsTree, IsPath, IsRange;
    var row := f.disk[FilePtr(f, o[..p])];
    if i :| 0 <= i < o[p] && row[i] != 0 {
      assert LeftOf(f, o, p, i);
    }
  }

  /** What nvfuse_find_shared returns: the branch to `o` is shared down to level `p`. */
  ghost predicate Shared(f: File, o: seq<nat>, keys: seq<nat>, p: nat) {
    && |f.slots| == SLOTS && IsFull(o) && p < |o| && Branch(f, o, keys) && p < |keys|
    && NothingLeft(f, o, p) && (p > 0 ==> SomethingLeft(f, o, p))
  }

  /** The slot where the branch is cut. */
  lemma CutSlot(f: File, o: seq<nat>, keys: seq<nat>, p: nat)
    requires IsTree(f) && Shared(f, o, keys, p)
    ensures IsRange(f, o[..p], o[p], o[p] + 1, |o| - 1 - p)
    ensures p == 0 ==> ArrayAt(f, o[..p]) == f.slots
    ensures p > 0 ==> keys[p - 1] in f.disk && ArrayAt(f, o[..p]) == f.disk[keys[p - 1]] && keys[p - 1] == FilePtr(f, o[..p])
  {
    if p > 0 {
      assert IsPath(o[..p]) && keys[p - 1] == FilePtr(f, o[..p]);
      OneDown(f, o, p);
    }
  }

  /** The blocks of the branch above the cut are still there while it is being trimmed. */
  lemma BranchAt(f: File, f1: File, o: seq<nat>, keys: seq<nat>, p: nat, i: nat, all: bool)
    requires Shared(f, o, keys, p) && 1 <= i <= p && IsTree(f1) && CutOff(f, f1, o[..p + 1], i + 1, all)
    ensures IsPath(o[..i]) && keys[i - 1] == FilePtr(f1, o[..i])
    ensures IsRange(f1, o[..i], o[i], PTRS, |o| - 1 - i) && IsRange(f1, o[..i], o[i] + 1, PTRS, |o| - 1 - i)
  {
    PrefixPath(o, i);
    assert o[..p + 1][..i] == o[..i];
    BranchStays(o[..p + 1], i, all);
    hide FilePtr, IsTree, NothingLeft, SomethingLeft;
    assert keys[i - 1] == FilePtr(f, o[..i]) == FilePtr(f1, o[..i]);
    OneDown(f1, o, i);
  }

  // ------------------------------------------------------- truncation, as a whole

  /** The block mapped at logical block `b`, or 0. */
  ghost function Mapped(f: File, b: int): nat
    requires |f.slots| == SLOTS
  {
    if 0 <= b < MAX_BLOCKS then
      PathOfBlock(b);
      FilePtr(f, BlockToPath(b))
    else 0
  }

  /** Logical blocks from `n` on are unmapped, those before are mapped as they were. */
  ghost predicate MapsUpTo(f: File, f': File, n: int) {
    |f.slots| == SLOTS == |f'.slots| &&
    forall b :: 0 <= b < MAX_BLOCKS ==> Mapped(f', b) == if b < n then Mapped(f, b) else 0
  }

  /** A block is kept exactly when it, or data reached through it, is mapped before block `n`. */
  ghost predicate KeepsWhatIsNeeded(f: File, f': File, n: int)
    requires |f.slots| == SLOTS && 0 <= n < MAX_BLOCKS
  {
    forall x: nat :: x in FileReach(f') <==> Needed(f, BlockToPath(n), x)
  }

  lemma CutIsTruncation(f: File, f': File, n: int, p: nat)
    requires IsTree(f) && IsTree(f') && 0 <= n < MAX_BLOCKS && p < |BlockToPath(n)|
    requires CutOff(f, f', BlockToPath(n)[..p + 1], 0, true) && NothingLeft(f, BlockToPath(n), p)
    requires (PathOfBlock(n); p > 0 ==> SomethingLeft(f, BlockToPath(n), p))
    ensures MapsUpTo(f, f', n) && (Lean(f) ==> KeepsWhatIsNeeded(f, f', n) && Lean(f'))
  {
    var o := BlockToPath(n);
    PathOfBlock(n);
    assert |f.slots| == SLOTS == |f'.slots|;
    hide FilePtr, CutOff, IsTree, NothingLeft, SomethingLeft, FileReach, Lean, Needed, BlockToPath;
    forall b | 0 <= b < MAX_BLOCKS ensures Mapped(f', b) == if b < n then Mapped(f, b) else 0 {
      PathOfBlock(b);
      PathsOrdered(b, n);
      CutMaps(f, f', o, p, BlockToPath(b));
    }
    if Lean(f) {
      CutStaysLean(f, f', o, p);
      forall x: nat ensures x in FileReach(f') <==> Needed(f, o, x) {
        SurvivorsAreNeeded(f, f', o, p, x);
      }
    }
  }

  /** A cut at one of the inode's own slots. */
  lemma NothingLeftOfSlot(f: File, o: seq<nat>)
    requires |f.slots| == SLOTS && IsFull(o) && |o| == 1
    ensures NothingLeft(f, o, 0)
  {
    assert o[..1] == o;
    NothingLeftBelow(f, o, 1, 0, 0);
  }

  const S32: int := 0x1_0000_0000
  const S64: int := 0x1_0000_0000_0000_0000

  /** Conversion of an integer to s32 and to s64. */
  function ToS32(x: int): int {
    var y := x % S32;
    if y < S32 / 2 then y else y - S32
  }

  function ToS64(x: int): int {
    var y := x % S64;
    if y < S64 / 2 then y else y - S64
  }

  /** NVFUSE_SIZE_TO_BLK of a u64: a cast to s64, an arithmetic shift, a cast to s32. */
  function SizeToBlk(x: int): int {
    ToS32(ToS64(x) / 4096)
  }

  /** The first block __nvfuse_truncate_blocks drops; the sum is taken modulo 2^64. */
  function FirstDropped(offset: int): int {
    SizeToBlk((offset + 4096 - 1) % S64)
  }

  /** Blocks needed for `offset` bytes. */
  function BlocksFor(offset: int): int {
    (offset + 4095) / 4096
  }

  /** Truncating to `offset` cuts the file where it should, for every file. */
  ghost predicate CutsWhereItShould(offset: int) {
    var n := FirstDropped(offset);
    forall b :: 0 <= b < MAX_BLOCKS ==> (BlockToPath(n) == [] || b < n <==> b * 4096 < offset)
  }

  /** Block `b` stays mapped exactly when it holds bytes below `offset`. */
  ghost predicate KeptBelow(f: File, f': File, offset: int) {
    |f.slots| == SLOTS == |f'.slots| &&
    forall b :: 0 <= b < MAX_BLOCKS ==> Mapped(f', b) == if b * 4096 < offset then Mapped(f, b) else 0
  }

  lemma KeptWhereItShould(f: File, f': File, offset: int)
    requires |f.slots| == SLOTS && CutsWhereItShould(offset)
    requires var n := FirstDropped(offset); if 0 <= n < MAX_BLOCKS then MapsUpTo(f, f', n) else f' == f
    ensures KeptBelow(f, f', offset)
  {
    var n := FirstDropped(offset);
    hide FirstDropped, Mapped;
    assert BlockToPath(n) == [] <==> !(0 <= n < MAX_BLOCKS);
  }

  /** The casts keep the block number modulo 2^32 only; that is harmless exactly when the
      number fits, or when what is left of it is beyond the largest file. */
  lemma TruncationPoint(offset: int)
    requires 0 <= offset < S64
    ensures CutsWhereItShould(offset) <==> (BlocksFor(offset) < S32 || BlocksFor(offset) % S32 >= MAX_BLOCKS)
  {
    var n, m := FirstDropped(offset), BlocksFor(offset);
    ShiftModulo(offset);
    assert forall b: int :: 0 <= b < MAX_BLOCKS ==> (b * 4096 < offset <==> b < m);
    if m >= S32 && m % S32 < MAX_BLOCKS {
      assert n == m % S32;
      assert BlockToPath(n) != [];
      assert !(n < n) && n * 4096 < offset;
    }
  }

  lemma ShiftModulo(offset: int)
    requires 0 <= offset < S64
    ensures FirstDropped(offset) == ToS32(BlocksFor(offset))
  {
    var x := offset + 4095;
    var y := x % S64;
    assert y == x || y == x - S64;
    assert ToS64(y) == y || ToS64(y) == y - S64;
    assert ToS64(y) / 4096 == x / 4096 || ToS64(y) / 4096 == x / 4096 - S64 / 4096;
  }

  /** A file truncated to 2^44 bytes loses everything. */
  lemma HugeSizesWrap()
    ensures !CutsWhereItShould(0x1000_0000_0000) && FirstDropped(0x1000_0000_0000) == 0
  {
    TruncationPoint(0x1000_0000_0000);
  }
}
