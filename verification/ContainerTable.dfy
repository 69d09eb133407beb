/** The table of containers that the control plane hands out to cores (nvfuse_control_plane.c). */
module ContainerTable {

  /** enum reservation_status. */
  datatype Status = Unlocked | Acquired | WriteLocked | ReadLocked

  /** struct container_reservation: owner 0 means that nobody owns the container. */
  datatype Entry = Entry(owner: int, status: Status, refs: int)

  const CONTROL_PLANE: int := -1   // ~0, the owner of container 0
  const NOBODY: Entry := Entry(0, Unlocked, 0)

  /** The status says how many hold the container, and only an owned one is held. */
  ghost predicate EntryOk(e: Entry) {
    && (e.owner == 0 ==> e.status == Unlocked)
    && match e.status
       case Unlocked => e.refs == 0
       case Acquired => e.refs == 0
       case WriteLocked => e.refs == 1
       case ReadLocked => e.refs >= 1
  }

  ghost function CountFree(t: seq<Entry>): nat {
    if t == [] then 0 else CountFree(t[..|t| - 1]) + if t[|t| - 1].owner == 0 then 1 else 0
  }

  lemma {:induction false} CountStored(t: seq<Entry>, i: nat, e: Entry)
    requires i < |t|
    ensures CountFree(t[i := e]) == CountFree(t) - (if t[i].owner == 0 then 1 else 0) + if e.owner == 0 then 1 else 0
    decreases |t|
  {
    var n := |t| - 1;
    if i < n {
      CountStored(t[..n], i, e);
      assert t[i := e][..n] == t[..n][i := e];
    } else {
      assert t[i := e][..n] == t[..n];
    }
  }

  lemma {:induction false} SomeFree(t: seq<Entry>) returns (i: nat)
    requires CountFree(t) > 0
    ensures i < |t| && t[i].owner == 0
  {
    var n := |t| - 1;
    if t[n].owner == 0 {
      i := n;
    } else {
      i := SomeFree(t[..n]);
    }
  }

  lemma {:induction false} NoneFree(t: seq<Entry>, i: nat)
    requires i < |t| && t[i].owner == 0
    ensures CountFree(t) > 0
    decreases |t|
  {
    var n := |t| - 1;
    if i < n { NoneFree(t[..n], i); }
  }

  lemma {:induction false} AllFree(t: seq<Entry>)
    requires forall i :: 0 <= i < |t| ==> t[i].owner == 0
    ensures CountFree(t) == |t|
    decreases |t|
  {
    if t != [] { AllFree(t[..|t| - 1]); }
  }

  /** `core` may take container `e`: 0 looks for one that nobody owns. */
  predicate Fits(e: Entry, owner: int) {
    e.owner == owner && e.status == Unlocked
  }

  /** The k-th container after container `last`, going round. */
  function After(last: nat, k: nat, n: nat): (i: nat)
    requires last < n && k < n
    ensures i < n
  {
    if last + 1 + k < n then last + 1 + k else last + 1 + k - n
  }

  /** Going round once passes every container. */
  lemma RoundTrip(last: nat, n: nat, i: nat) returns (k: nat)
    requires last < n && i < n
    ensures k < n && After(last, k, n) == i
  {
    k := if i > last then i - last - 1 else i + n - last - 1;
  }

  lemma Wraps(i: nat, n: nat)
    requires i < n
    ensures (i + 1) % n == if i + 1 < n then i + 1 else 0
  {
    if i + 1 < n {
      SmallRemainder(i + 1, n);
    }
  }

  lemma SmallRemainder(a: nat, n: nat)
    requires a < n
    ensures a % n == a
  {
  }

  /** Container `id` is the first one after `last` that fits. */
  ghost predicate FirstFit(t: seq<Entry>, last: nat, owner: int, id: nat) {
    exists k :: FitsAt(t, last, owner, id, k)
  }

  ghost predicate FitsAt(t: seq<Entry>, last: nat, owner: int, id: nat, k: nat) {
    last < |t| && k < |t| && id == After(last, k, |t|) && Fits(t[id], owner) && NotBefore(t, last, owner, k)
  }

  /** None of the `k` containers after `last` fits. */
  ghost predicate NotBefore(t: seq<Entry>, last: nat, owner: int, k: nat)
    requires last < |t| && k <= |t|
  {
    forall j: nat :: j < k ==> !Fits(t[After(last, j, |t|)], owner)
  }

  lemma FirstFitIs(t: seq<Entry>, last: nat, owner: int, id: nat)
    requires FirstFit(t, last, owner, id)
    ensures id < |t| && t[id].owner == owner && t[id].status == Unlocked
    ensures forall j :: 0 <= j < |t| && (if last < id then last < j < id else last < j || j < id) ==>
      !(t[j].owner == owner && t[j].status == Unlocked)
  {
    var k: nat :| FitsAt(t, last, owner, id, k);
    forall j | 0 <= j < |t| && (if last < id then last < j < id else last < j || j < id)
      ensures !(t[j].owner == owner && t[j].status == Unlocked)
    {
      var l := RoundTrip(last, |t|, j);
      assert l < k;
    }
  }

  class Table {
    var table: seq<Entry>
    var free: int
    var last: nat

    ghost predicate Valid()
      reads this
    {
      && last < |table| && table[0].owner == CONTROL_PLANE && free == CountFree(table)
      && forall i :: 0 <= i < |table| ==> EntryOk(table[i])
    }

    /** nvfuse_control_plane_container_table_init. */
    constructor (n: nat)
      requires n >= 1
      ensures Valid() && |table| == n && free == n - 1 && last == 0
    {
      table := seq(n, _ => NOBODY)[0 := NOBODY.(owner := CONTROL_PLANE)];
      free, last := n - 1, 0;
      new;
      AllFree(seq(n, _ => NOBODY));
      CountStored(seq(n, _ => NOBODY), 0, NOBODY.(owner := CONTROL_PLANE));
    }

    /** Container `id` gets a new entry. */
    method Store(id: nat, e: Entry, change: int)
      requires id < |table| && free == CountFree(table)
      modifies this`table, this`free
      ensures table == old(table)[id := e] && free == old(free) + change
      ensures free == CountFree(table) <==> change == (if e.owner == 0 then 1 else 0) - if old(table)[id].owner == 0 then 1 else 0
    {
      CountStored(table, id, e);
      table, free := table[id := e], free + change;
    }

    /** The search for a container that nobody owns: it ends because such a container is not locked. */
    method FindFree() returns (id: nat)
      requires Valid() && free > 0
      ensures 0 < id < |table| && FirstFit(table, last, 0, id)
    {
      ghost var i := SomeFree(table);
      ghost var goal := RoundTrip(last, |table|, i);
      ghost var k := 0;
      Wraps(last, |table|);
      id := (last + 1) % |table|;
      while !Fits(table[id], 0)
        invariant k <= goal && id == After(last, k, |table|) && NotBefore(table, last, 0, k)
        decreases goal - k
      {
        Wraps(id, |table|);
        id := (id + 1) % |table|;
        k := k + 1;
      }
      assert FitsAt(table, last, 0, id, k);
    }

    /** The search for an unlocked container of `core`, at most once round the table. */
    method FindOwned(core: int) returns (found: bool, id: nat)
      requires Valid()
      ensures found ==> id < |table| && FirstFit(table, last, core, id) && Fits(table[id], core)
      ensures !found ==> id == 0 && forall i :: 0 <= i < |table| ==> !Fits(table[i], core)
    {
      ghost var k := 0;
      var tries := |table|;
      Wraps(last, |table|);
      id := (last + 1) % |table|;
      while !Fits(table[id], core)
        invariant k < |table| && tries == |table| - k && id == After(last, k, |table|) && NotBefore(table, last, core, k)
        decreases tries
      {
        Wraps(id, |table|);
        id := (id + 1) % |table|;
        k := k + 1;
        tries := tries - 1;
        if tries == 0 {
          forall i | 0 <= i < |table| ensures !Fits(table[i], core) {
            var j := RoundTrip(last, |table|, i);
          }
          return false, 0;
        }
      }
      assert FitsAt(table, last, core, id, k);
      found := true;
    }

    /** nvfuse_control_plane_container_alloc with CONTAINER_NEW_ALLOC. The search ends because a
        container that nobody owns is not locked; the table stays in order unless the new owner asks
        for a lock at once, which nobody then holds. */
    method AllocNew(core: int, status: Status) returns (id: nat)
      requires Valid() && core != 0
      modifies this
      ensures |table| == |old(table)| && (id == 0 <==> old(free) == 0)
      ensures id == 0 ==> Valid() && table == old(table) && last == old(last)
      ensures id != 0 ==> id < |table| && last == id && table == old(table)[id := Entry(core, status, 0)] && free == old(free) - 1
      // the first one behind `last`, going round, that nobody owns
      ensures id != 0 ==> old(table)[id].owner == 0 && old(table)[id].status == Unlocked
      ensures id != 0 ==> forall j :: 0 <= j < |table| ==>
        ((if old(last) < id then old(last) < j < id else old(last) < j || j < id) ==> old(table)[j].owner != 0)
      ensures forall i :: 0 <= i < |table| && old(table)[i].refs > 0 ==> table[i] == old(table)[i]
      ensures Valid() <==> id == 0 || status == Unlocked || status == Acquired
    {
      if free == 0 {
        return 0;
      }
      id := FindFree();
      FirstFitIs(table, last, 0, id);
      Store(id, Entry(core, status, 0), -1);
      assert table[id] == Entry(core, status, 0);
      last := id;
    }

    /** nvfuse_control_plane_container_alloc with CONTAINER_ALLOCATED_ALLOC: 0 only when no container
        of the core is unlocked. The source stops (`ok` is false) when it comes to container 0, which
        only the control plane itself owns. */
    method AllocOwned(core: int, status: Status) returns (ok: bool, id: nat)
      requires Valid() && core != 0
      modifies this
      ensures |table| == |old(table)| && (!ok ==> core == CONTROL_PLANE && old(table)[0].status == Unlocked)
      ensures ok ==> (id == 0 <==> forall i :: 0 <= i < |table| ==> !(old(table)[i].owner == core && old(table)[i].status == Unlocked))
      ensures id == 0 ==> Valid() && table == old(table) && last == old(last)
      ensures id != 0 ==> id < |table| && last == id && table == old(table)[id := Entry(core, status, 0)] && free == old(free)
      // the first one behind `last`, going round, that the core owns and that is not locked
      ensures id != 0 || !ok ==> old(table)[id].owner == core && old(table)[id].status == Unlocked
      ensures id != 0 || !ok ==> forall j :: 0 <= j < |table| ==>
        ((if old(last) < id then old(last) < j < id else old(last) < j || j < id) ==>
           !(old(table)[j].owner == core && old(table)[j].status == Unlocked))
      ensures forall i :: 0 <= i < |table| && old(table)[i].refs > 0 ==> table[i] == old(table)[i]
      ensures Valid() <==> id == 0 || status == Unlocked || status == Acquired
    {
      var found;
      found, id := FindOwned(core);
      ok := !(found && id == 0);
      if found { FirstFitIs(table, last, core, id); }
      if id == 0 {
        return;
      }
      Store(id, table[id].(status := status, refs := 0), 0);
      assert table[id] == Entry(core, status, 0);
      last := id;
    }

    /** nvfuse_control_plane_container_release. Core 0, which owns what nobody owns, and the container
        of the control plane are not refused: releasing those puts the table out of order. */
    method Release(core: int, id: nat) returns (res: int)
      requires Valid() && id < |table|
      modifies this
      ensures res == if old(table)[id].owner == core && old(table)[id].refs == 0 then 0 else -1
      ensures res != 0 ==> table == old(table) && free == old(free) && last == old(last)
      ensures res == 0 ==> table == old(table)[id := Entry(0, Unlocked, 0)] && free == old(free) + 1 && last == old(last)
      ensures forall i :: 0 <= i < |table| && old(table)[i].refs > 0 ==> table[i] == old(table)[i]
      ensures Valid() <==> res != 0 || (core != 0 && id != 0)
    {
      if table[id].owner != core {
        return -1;
      }
      if table[id].refs != 0 {
        return -1;
      }
      Store(id, NOBODY, 1);
      res := 0;
    }

    /** nvfuse_control_plane_container_release_by_coreid: stops at the first container of the core
        that is held, number `k`; those before it have been released. Core 0 releases what is free already, which
        counts it twice. */
    method ReleaseByCore(core: int, clear: bool) returns (res: int, ghost k: nat)
      requires Valid()
      modifies this
      ensures |table| == |old(table)| && last == old(last)
      ensures 1 <= k <= |table| && res == if k == |table| then 0 else -1
      ensures k < |table| ==> old(table)[k].owner == core && old(table)[k].refs != 0
      ensures forall i :: 1 <= i < k && old(table)[i].owner == core ==> old(table)[i].refs == 0
      ensures forall i :: 0 <= i < |table| ==>
        (table[i] == if 1 <= i < k && old(table)[i].owner == core then Entry(if clear then 0 else core, Unlocked, 0) else old(table)[i])
      ensures forall i :: 0 <= i < |table| && old(table)[i].refs > 0 ==> table[i] == old(table)[i]
      ensures Valid() <==> core != 0 || !clear || old(free) == 0
    {
      hide CountFree, EntryOk;
      ghost var t, twice := table, core == 0 && clear;
      NothingReleased(t, core, clear);
      for id := 1 to |table|
        invariant |table| == |t| && last == old(last) && Partly(t, table, core, clear, id)
        invariant free == CountFree(table) + if twice then CountFree(t[..id]) else 0
      {
        OneMore(t, table, core, clear, id);
        if table[id].owner != core {
          continue;
        }
        if table[id].refs != 0 {
          PartlyOk(t, table, core, clear, id);
          return -1, id;
        }
        var e := table[id].(status := Unlocked, refs := 0);
        if clear {
          e := e.(owner := 0);
        }
        table, free := table[id := e], if clear then free + 1 else free;
      }
      PartlyOk(t, table, core, clear, |table|);
      res, k := 0, |table|;
    }

    /** nvfuse_control_plane_reservation_acquire: a writer is alone, readers share. Whether the
        container has an owner is not asked; without one the table is out of order afterwards. */
    method Acquire(id: nat, write: bool) returns (res: int)
      requires Valid() && id < |table|
      modifies this
      ensures var e := old(table)[id];
        && res == (if e.status == Unlocked || (!write && e.status == ReadLocked) then 0 else -1)
        && table == (if res != 0 then old(table) else old(table)[id := Entry(e.owner, if write then WriteLocked else ReadLocked, e.refs + 1)])
        && (Valid() <==> res != 0 || e.owner != 0) && free == old(free) && last == old(last)
    {
      if write {
        if table[id].status == Unlocked {
          Store(id, table[id].(status := WriteLocked, refs := table[id].refs + 1), 0);
        } else {
          return -1;
        }
      } else {
        if table[id].status == ReadLocked || table[id].status == Unlocked {
          Store(id, table[id].(status := ReadLocked, refs := table[id].refs + 1), 0);
        } else {
          return -1;
        }
      }
      assert table[id].owner == 0 ==> !EntryOk(table[id]);
      res := 0;
    }

    /** nvfuse_control_plane_reservation_release. */
    method ReleaseReservation(id: nat) returns (res: int)
      requires Valid() && id < |table|
      modifies this
      ensures Valid() && free == old(free) && last == old(last)
      ensures res == if old(table)[id].refs > 0 then 0 else -1
      ensures res != 0 ==> table == old(table)
      ensures var e := old(table)[id];
        res == 0 ==> table == old(table)[id := Entry(e.owner, if e.refs == 1 then Unlocked else e.status, e.refs - 1)]
    {
      var e := table[id];
      res := 0;
      match e.status
      case WriteLocked =>
        Store(id, e.(status := Unlocked, refs := e.refs - 1), 0);
        assert table[id].refs == 0;
      case ReadLocked =>
        e := e.(refs := e.refs - 1);
        if e.refs == 0 {
          e := e.(status := Unlocked);
        }
        Store(id, e, 0);
      case _ =>
        res := -1;
    }
  }

  /** The containers of `core` before `n` have been released; none of them was held. */
  ghost predicate Partly(t: seq<Entry>, now: seq<Entry>, core: int, clear: bool, n: nat) {
    && |now| == |t| && (forall i :: 1 <= i < n && i < |t| && t[i].owner == core ==> t[i].refs == 0)
    && forall i :: 0 <= i < |t| ==>
         (now[i] == if 1 <= i < n && t[i].owner == core then Entry(if clear then 0 else core, Unlocked, 0) else t[i])
  }

  lemma NothingReleased(t: seq<Entry>, core: int, clear: bool)
    requires t != [] && t[0].owner != 0
    ensures Partly(t, t, core, clear, 1) && CountFree(t[..1]) == 0
  {
    assert t[..1][..0] == [];
  }

  lemma OneMore(t: seq<Entry>, now: seq<Entry>, core: int, clear: bool, id: nat)
    requires Partly(t, now, core, clear, id) && 1 <= id < |t| && (forall i :: 0 <= i < |t| ==> EntryOk(t[i])) && t[0].owner == CONTROL_PLANE
    ensures now[id] == t[id] && (t[id].owner != core ==> Partly(t, now, core, clear, id + 1))
    ensures var e := Entry(if clear then 0 else core, Unlocked, 0);
      && (t[id].owner == core && t[id].refs == 0 ==> Partly(t, now[id := e], core, clear, id + 1))
      && (t[id].owner == core ==>
            CountFree(now[id := e]) == CountFree(now) - (if core == 0 then 1 else 0) + if clear || core == 0 then 1 else 0)
    ensures CountFree(t[..id + 1]) == CountFree(t[..id]) + if t[id].owner == 0 then 1 else 0
    ensures core == 0 && t[id].owner == core ==> t[id].refs == 0
  {
    CountStored(now, id, Entry(if clear then 0 else core, Unlocked, 0));
    assert t[..id + 1][..id] == t[..id];
    hide CountFree;
  }

  /** The table is in order but for the count. */
  lemma PartlyOk(t: seq<Entry>, now: seq<Entry>, core: int, clear: bool, n: nat)
    requires Partly(t, now, core, clear, n) && t != [] && (forall i :: 0 <= i < |t| ==> EntryOk(t[i])) && t[0].owner == CONTROL_PLANE
    ensures now[0].owner == CONTROL_PLANE && forall i :: 0 <= i < |t| ==> EntryOk(now[i])
    ensures forall i :: 0 <= i < |t| && t[i].refs > 0 && n <= |t| ==> now[i] == t[i]
    ensures t[..|t|] == t && (core == 0 ==> now == t)
  {
  }

  /** A release takes back what an acquisition has done, and a refused acquisition does nothing. */
  method AcquireThenRelease(t: Table, id: nat, write: bool) returns (res: int)
    requires t.Valid() && id < |t.table| && t.table[id].owner != 0
    modifies t
    ensures t.Valid() && t.table == old(t.table) && t.free == old(t.free)
    ensures res == 0 ==> if write then old(t.table)[id].refs == 0 else old(t.table)[id].status != WriteLocked
  {
    res := t.Acquire(id, write);
    if res == 0 {
      var _ := t.ReleaseReservation(id);
    }
  }

  /** The free count is the number of containers that nobody owns. */
  lemma {:induction false} CountIs(t: seq<Entry>)
    ensures CountFree(t) == |set i: int | 0 <= i < |t| && t[i].owner == 0|
    decreases |t|
  {
    var s := set i: int | 0 <= i < |t| && t[i].owner == 0;
    if t == [] {
      assert s == {};
    } else {
      var n := |t| - 1;
      var less := set i: int | 0 <= i < n && t[..n][i].owner == 0;
      CountIs(t[..n]);
      assert less == set i: int | 0 <= i < |t[..n]| && t[..n][i].owner == 0;
      assert s == if t[n].owner == 0 then less + {n} else less;
    }
  }

  /** What a table in order means. */
  lemma TableMeans(t: Table)
    requires t.Valid()
    ensures t.free == |set i: int | 0 <= i < |t.table| && t.table[i].owner == 0|
    ensures |t.table| > 0 && t.table[0].owner == -1
    ensures forall i :: 0 <= i < |t.table| ==>
      && (t.table[i].owner == 0 ==> t.table[i].status == Unlocked)
      && (t.table[i].status == WriteLocked ==> t.table[i].refs == 1) && (t.table[i].status == ReadLocked ==> t.table[i].refs >= 1)
      && (t.table[i].status == Unlocked || t.table[i].status == Acquired ==> t.table[i].refs == 0)
  {
    CountIs(t.table);
  }

  /** A lock on the only container that nobody owns: the count says one is free, and no round of the
      search for it would end. */
  lemma LockedAndFree(t: seq<Entry>)
    requires t == [NOBODY.(owner := CONTROL_PLANE), Entry(0, WriteLocked, 1)]
    ensures CountFree(t) == 1 && forall i :: 0 <= i < |t| ==> !Fits(t[i], 0)
  {
    assert t[..1] == [t[0]] && t[..1][..0] == [];
    assert CountFree(t[..1]) == 0;
  }
}
