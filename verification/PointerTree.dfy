/** The tree of block pointers below one pointer slot: what it maps, which blocks it
    reaches, and how one store into a pointer array changes both. */
module PointerTree {

  const PTRS: nat := 1024   // PTRS_PER_BLOCK

  /** The pointer arrays held by pointer blocks, by block number. */
  type Disk = map<nat, seq<nat>>

  /** The pointer found by following `path` from pointer `nr`; 0 is "not there". */
  ghost function PtrAt(disk: Disk, nr: nat, path: seq<nat>): nat
    decreases |path|
  {
    if path == [] then nr
    else if nr == 0 || nr !in disk || path[0] >= |disk[nr]| then 0
    else PtrAt(disk, disk[nr][path[0]], path[1..])
  }

  /** All blocks, data and pointer blocks, below pointer `nr` with `d` levels of pointer blocks. */
  ghost function Reach(disk: Disk, nr: nat, d: nat): set<nat>
    decreases d, 0
  {
    if nr == 0 then {}
    else if d == 0 then {nr}
    else {nr} + if nr in disk then ReachAll(disk, disk[nr], d - 1) else {}
  }

  ghost function ReachAll(disk: Disk, ptrs: seq<nat>, d: nat): set<nat>
    decreases d, 1
  {
    set i, x | 0 <= i < |ptrs| && x in Reach(disk, ptrs[i], d) :: x
  }

  /** Pointer `nr` is the root of a tree: no block is reached along two paths. */
  ghost predicate Tree(disk: Disk, nr: nat, d: nat)
    decreases d, 0
  {
    nr == 0 || d == 0 ||
    (nr in disk && |disk[nr]| == PTRS && Forest(disk, disk[nr], d - 1) && nr !in ReachAll(disk, disk[nr], d - 1))
  }

  ghost predicate Forest(disk: Disk, ptrs: seq<nat>, d: nat)
    decreases d, 1
  {
    && (forall i :: 0 <= i < |ptrs| ==> Tree(disk, ptrs[i], d))
    && forall i, j :: 0 <= i < j < |ptrs| ==> Reach(disk, ptrs[i], d) !! Reach(disk, ptrs[j], d)
  }

  ghost predicate InRange(path: seq<nat>) {
    forall i :: 0 <= i < |path| ==> path[i] < PTRS
  }

  /** `disk'` holds the same pointer arrays in the blocks `s`. */
  ghost predicate SameOn(disk: Disk, disk': Disk, s: set<nat>) {
    forall x :: x in s && x in disk ==> x in disk' && disk'[x] == disk[x]
  }

  lemma {:induction false} Frame(disk: Disk, disk': Disk, nr: nat, d: nat)
    requires Tree(disk, nr, d) && SameOn(disk, disk', Reach(disk, nr, d))
    ensures Tree(disk', nr, d) && Reach(disk', nr, d) == Reach(disk, nr, d)
    decreases d
  {
    if nr != 0 && d != 0 {
      var ptrs := disk[nr];
      forall i | 0 <= i < |ptrs|
        ensures Tree(disk', ptrs[i], d - 1) && Reach(disk', ptrs[i], d - 1) == Reach(disk, ptrs[i], d - 1)
      {
        assert Reach(disk, ptrs[i], d - 1) <= ReachAll(disk, ptrs, d - 1);
        Frame(disk, disk', ptrs[i], d - 1);
      }
      assert ReachAll(disk', ptrs, d - 1) == ReachAll(disk, ptrs, d - 1);
    }
  }

  lemma {:induction false} FramePtr(disk: Disk, disk': Disk, nr: nat, d: nat, path: seq<nat>)
    requires Tree(disk, nr, d) && SameOn(disk, disk', Reach(disk, nr, d)) && |path| <= d && InRange(path)
    ensures PtrAt(disk', nr, path) == PtrAt(disk, nr, path)
    decreases d
  {
    if nr != 0 && path != [] {
      var kid := disk[nr][path[0]];
      assert Reach(disk, kid, d - 1) <= ReachAll(disk, disk[nr], d - 1);
      FramePtr(disk, disk', kid, d - 1, path[1..]);
    }
  }

  /** A pointer found on the way down is reached. */
  lemma {:induction false} PtrReached(disk: Disk, nr: nat, d: nat, path: seq<nat>)
    requires Tree(disk, nr, d) && |path| <= d && InRange(path)
    ensures var p := PtrAt(disk, nr, path); var e := d - |path|;
      Tree(disk, p, e) && Reach(disk, p, e) <= Reach(disk, nr, d) && (p != 0 ==> p in Reach(disk, nr, d))
    decreases d
  {
    if nr != 0 && path != [] {
      var kid := disk[nr][path[0]];
      assert Reach(disk, kid, d - 1) <= ReachAll(disk, disk[nr], d - 1);
      PtrReached(disk, kid, d - 1, path[1..]);
    }
  }

  // --------------------------------------------------- one store into an array

  ghost function Stored(disk: Disk, b: nat, i: nat, v: nat): Disk
    requires b in disk && i < |disk[b]|
  {
    var row: seq<nat> := disk[b][i := v];
    disk[b := row]
  }

  lemma KidsReached(disk: Disk, ptrs: seq<nat>, d: nat, j: nat)
    requires j < |ptrs|
    ensures Reach(disk, ptrs[j], d) <= ReachAll(disk, ptrs, d)
  {
  }

  /** The subtrees other than number `i` are what they were. */
  ghost predicate OthersKept(disk: Disk, disk': Disk, ptrs: seq<nat>, ptrs': seq<nat>, d: nat, i: nat) {
    |ptrs'| == |ptrs| && forall j :: 0 <= j < |ptrs| && j != i ==>
      ptrs'[j] == ptrs[j] && Tree(disk', ptrs[j], d) && Reach(disk', ptrs[j], d) == Reach(disk, ptrs[j], d)
  }

  lemma UnionReplaced(disk: Disk, disk': Disk, ptrs: seq<nat>, ptrs': seq<nat>, d: nat, i: nat)
    requires Forest(disk, ptrs, d) && i < |ptrs| && OthersKept(disk, disk', ptrs, ptrs', d, i)
    ensures ReachAll(disk', ptrs', d) == ReachAll(disk, ptrs, d) - Reach(disk, ptrs[i], d) + Reach(disk', ptrs'[i], d)
  {
    hide Reach, Tree;
    var gone, came := Reach(disk, ptrs[i], d), Reach(disk', ptrs'[i], d);
    forall x | x in ReachAll(disk, ptrs, d) - gone ensures x in ReachAll(disk', ptrs', d) {
      var j :| 0 <= j < |ptrs| && x in Reach(disk, ptrs[j], d);
      assert x in Reach(disk', ptrs'[j], d);
    }
    forall x | x in ReachAll(disk', ptrs', d) ensures x in ReachAll(disk, ptrs, d) - gone + came {
      var j :| 0 <= j < |ptrs'| && x in Reach(disk', ptrs'[j], d);
      if j != i {
        assert x in Reach(disk, ptrs[j], d);
        assert Reach(disk, ptrs[j], d) !! gone;
      }
    }
  }

  /** Replacing one subtree of an array by another. */
  lemma KidReplaced(disk: Disk, disk': Disk, ptrs: seq<nat>, ptrs': seq<nat>, d: nat, i: nat)
    requires Forest(disk, ptrs, d) && i < |ptrs| == |ptrs'| && ptrs' == ptrs[i := ptrs'[i]]
    requires var rest := ReachAll(disk, ptrs, d) - Reach(disk, ptrs[i], d);
      SameOn(disk, disk', rest) && Tree(disk', ptrs'[i], d) && Reach(disk', ptrs'[i], d) !! rest
    ensures Forest(disk', ptrs', d)
    ensures ReachAll(disk', ptrs', d) == ReachAll(disk, ptrs, d) - Reach(disk, ptrs[i], d) + Reach(disk', ptrs'[i], d)
  {
    hide Reach, Tree;
    var rest := ReachAll(disk, ptrs, d) - Reach(disk, ptrs[i], d);
    forall j | 0 <= j < |ptrs| && j != i
      ensures Tree(disk', ptrs'[j], d) && Reach(disk', ptrs'[j], d) == Reach(disk, ptrs[j], d) <= rest
    {
      KidsReached(disk, ptrs, d, j);
      assert Reach(disk, ptrs[j], d) !! Reach(disk, ptrs[i], d);
      Frame(disk, disk', ptrs[j], d);
    }
    UnionReplaced(disk, disk', ptrs, ptrs', d, i);
  }

  /** The array that holds the slot at the end of `path`. */
  ghost function HolderAt(disk: Disk, nr: nat, path: seq<nat>): nat
    requires path != []
  {
    PtrAt(disk, nr, path[..|path| - 1])
  }

  /** From disk to disk' the tree below `nr` loses the blocks `gone` and gains `came`. */
  ghost predicate Exchanged(disk: Disk, disk': Disk, nr: nat, d: nat, gone: set<nat>, came: set<nat>) {
    Tree(disk', nr, d) && Reach(disk', nr, d) == Reach(disk, nr, d) - gone + came
  }

  lemma StoreHere(disk: Disk, nr: nat, d: nat, i: nat, v: nat)
    requires Tree(disk, nr, d) && nr != 0 && d >= 1 && i < PTRS
    requires Tree(disk, v, d - 1) && Reach(disk, v, d - 1) !! Reach(disk, nr, d)
    ensures Exchanged(disk, Stored(disk, nr, i, v), nr, d, Reach(disk, disk[nr][i], d - 1), Reach(disk, v, d - 1))
  {
    var disk' := Stored(disk, nr, i, v);
    Frame(disk, disk', v, d - 1);
    KidsReached(disk, disk[nr], d - 1, i);
    KidReplaced(disk, disk', disk[nr], disk'[nr], d - 1, i);
  }

  lemma StoreBelow(disk: Disk, disk': Disk, nr: nat, d: nat, k: nat, gone: set<nat>, came: set<nat>)
    requires Tree(disk, nr, d) && nr != 0 && d >= 1 && k < PTRS && nr in disk' && disk'[nr] == disk[nr]
    requires var kid := disk[nr][k];
      && gone <= Reach(disk, kid, d - 1) && came !! Reach(disk, nr, d)
      && Exchanged(disk, disk', kid, d - 1, gone, came)
      && SameOn(disk, disk', Reach(disk, nr, d) - Reach(disk, kid, d - 1))
    ensures Exchanged(disk, disk', nr, d, gone, came)
  {
    KidsReached(disk, disk[nr], d - 1, k);
    KidReplaced(disk, disk', disk[nr], disk'[nr], d - 1, k);
  }

  /** Storing `v` into the slot at the end of `path` swaps the subtree there for the
      subtree of `v`. */
  lemma {:induction false} Store(disk: Disk, nr: nat, d: nat, path: seq<nat>, v: nat)
    requires Tree(disk, nr, d) && 1 <= |path| <= d && InRange(path) && HolderAt(disk, nr, path) != 0
    requires Tree(disk, v, d - |path|) && Reach(disk, v, d - |path|) !! Reach(disk, nr, d)
    ensures var b, i := HolderAt(disk, nr, path), path[|path| - 1];
      && b in disk && |disk[b]| == PTRS && b in Reach(disk, nr, d) && disk[b][i] == PtrAt(disk, nr, path)
      && Exchanged(disk, Stored(disk, b, i, v), nr, d, Reach(disk, disk[b][i], d - |path|), Reach(disk, v, d - |path|))
    decreases d
  {
    hide Exchanged, Reach;
    assert nr != 0;
    if |path| > 1 {
      var k := path[0];
      var kid, rest := disk[nr][k], path[1..];
      assert path[..|path| - 1][1..] == rest[..|rest| - 1];
      KidStep(disk, nr, d, k);
      Store(disk, kid, d - 1, rest, v);
      PtrReached(disk, kid, d - 1, rest);
      var b, i := HolderAt(disk, nr, path), path[|path| - 1];
      StoreBelow(disk, Stored(disk, b, i, v), nr, d, k, Reach(disk, disk[b][i], d - |path|), Reach(disk, v, d - |path|));
    } else {
      KidStep(disk, nr, d, path[0]);
      StoreHere(disk, nr, d, path[0], v);
    }
  }

  lemma KidStep(disk: Disk, nr: nat, d: nat, k: nat)
    requires Tree(disk, nr, d) && nr != 0 && d >= 1 && k < PTRS
    ensures nr in Reach(disk, nr, d) && Tree(disk, disk[nr][k], d - 1)
    ensures Reach(disk, disk[nr][k], d - 1) <= Reach(disk, nr, d) && nr !in Reach(disk, disk[nr][k], d - 1)
  {
    KidsReached(disk, disk[nr], d - 1, k);
  }

  /** ... and leaves every path that does not run through the slot alone. */
  lemma {:induction false} StorePtr(disk: Disk, nr: nat, d: nat, path: seq<nat>, v: nat, q: seq<nat>)
    requires Tree(disk, nr, d) && 1 <= |path| <= d && InRange(path) && HolderAt(disk, nr, path) != 0
    requires Tree(disk, v, d - |path|) && Reach(disk, v, d - |path|) !! Reach(disk, nr, d)
    requires InRange(q) && |q| <= d
    ensures var b, i := HolderAt(disk, nr, path), path[|path| - 1];
      && b in disk && |disk[b]| == PTRS
      && PtrAt(Stored(disk, b, i, v), nr, q)
        == if path <= q then PtrAt(disk, v, q[|path|..]) else PtrAt(disk, nr, q)
    decreases d
  {
    hide Reach;
    Store(disk, nr, d, path, v);
    var b, i := HolderAt(disk, nr, path), path[|path| - 1];
    var disk' := Stored(disk, b, i, v);
    if q != [] {
      var k, kid, rest := path[0], disk[nr][path[0]], path[1..];
      KidStep(disk, nr, d, k);
      KidStep(disk, nr, d, q[0]);
      if |path| > 1 {
        assert path[..|path| - 1][1..] == rest[..|rest| - 1];
        PtrReached(disk, kid, d - 1, rest[..|rest| - 1]);
      }
      if q[0] != k {
        var other := disk[nr][q[0]];
        assert Reach(disk, other, d - 1) !! Reach(disk, kid, d - 1);
        FramePtr(disk, disk', other, d - 1, q[1..]);
      } else if |path| == 1 {
        FramePtr(disk, disk', v, d - 1, q[1..]);
      } else {
        StorePtr(disk, kid, d - 1, rest, v, q[1..]);
        assert path <= q <==> rest <= q[1..];
        assert path <= q ==> q[1..][|rest|..] == q[|path|..];
      }
    }
  }
}
