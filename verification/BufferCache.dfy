/** The write-back buffer cache (nvfuse_buffer_cache.c) and its flush loop (nvfuse_core.c),
    against a plain store of blocks. */
module BufferCache {
  import opened BufferLists

  const AIO_MAX_QDEPTH: nat := 512

  type Disk = nat -> Bytes

  /** The fixed translation of keys to blocks is injective and never gives block 0. */
  ghost predicate Translation(pbn: nat -> nat) {
    (forall k: nat :: pbn(k) != 0) && forall k: nat, l: nat :: pbn(k) == pbn(l) ==> k == l
  }

  /** What the flags of a buffer promise. */
  ghost predicate Good(b: Buf, pbn: nat -> nat, disk: Disk) {
    && b.refs == (if b.kind == Ref then 1 else 0) && b.flush == (b.kind == Flushing)
    && (b.kind == Unused ==> !b.dirty && !b.load && b.pno == 0)
    && (b.kind == Clean ==> !b.dirty && b.pno == pbn(b.key))
    && (b.kind == Dirty || b.kind == Flushing ==> b.dirty && b.load && b.pno == pbn(b.key))
    && (b.kind == Ref ==> b.pno == pbn(b.key) && (b.dirty ==> b.load))
    && (b.load && !b.dirty ==> b.data == disk(pbn(b.key)))
  }

  /** The hash finds each buffer in use under its key, and only there. */
  ghost predicate HashOk(bufs: Bufs, hash: map<nat, nat>) {
    && (forall k :: k in hash ==> hash[k] in bufs && bufs[hash[k]].key == k)
    && (forall id :: id in bufs && bufs[id].kind != Unused ==> bufs[id].key in hash && hash[bufs[id].key] == id)
  }

  ghost predicate AllGood(bufs: Bufs, pbn: nat -> nat, disk: Disk) {
    forall id :: id in bufs ==> Good(bufs[id], pbn, disk)
  }

  /** The block a reader of key `k` is to see. */
  ghost function Logical(bufs: Bufs, hash: map<nat, nat>, pbn: nat -> nat, disk: Disk, k: nat): Bytes {
    if k in hash && hash[k] in bufs && bufs[hash[k]].load then bufs[hash[k]].data else disk(pbn(k))
  }

  /** Readers see the blocks of `store`. */
  ghost predicate Shows(bufs: Bufs, hash: map<nat, nat>, pbn: nat -> nat, disk: Disk, store: nat -> Bytes) {
    forall k: nat :: store(k) == Logical(bufs, hash, pbn, disk, k)
  }

  ghost predicate Sound(bufs: Bufs, hash: map<nat, nat>, pbn: nat -> nat, disk: Disk, store: nat -> Bytes) {
    Translation(pbn) && HashOk(bufs, hash) && AllGood(bufs, pbn, disk) && Shows(bufs, hash, pbn, disk, store)
  }

  // ------------------------------------------------- what each operation does to Sound

  /** Taking a buffer that is not dirty out of the hash. */
  ghost function Unhashed(bufs: Bufs, hash: map<nat, nat>, id: nat): map<nat, nat>
    requires id in bufs
  {
    if bufs[id].key in hash && hash[bufs[id].key] == id then hash - {bufs[id].key} else hash
  }

  lemma EvictKeeps(bufs: Bufs, hash: map<nat, nat>, pbn: nat -> nat, disk: Disk, store: nat -> Bytes, id: nat, key: nat, data: Bytes)
    requires Sound(bufs, hash, pbn, disk, store) && id in bufs && !bufs[id].dirty && bufs[id].kind != Ref && key !in hash
    ensures Sound(bufs[id := Buf(Ref, key, pbn(key), data, false, false, false, 1)], Unhashed(bufs, hash, id)[key := id], pbn, disk, store)
  {
    var bufs', hash' := bufs[id := Buf(Ref, key, pbn(key), data, false, false, false, 1)], Unhashed(bufs, hash, id)[key := id];
    assert Good(bufs[id], pbn, disk);
    assert forall k :: k in hash && hash[k] == id ==> k == bufs[id].key;
    assert HashOk(bufs', hash');
    forall k: nat ensures store(k) == Logical(bufs', hash', pbn, disk, k) {
      assert store(k) == Logical(bufs, hash, pbn, disk, k);
    }
  }

  /** A change to one buffer, in its place in the hash. */
  lemma BufferKeeps(bufs: Bufs, hash: map<nat, nat>, pbn: nat -> nat, disk: Disk, store: nat -> Bytes, id: nat, b: Buf, store': nat -> Bytes)
    requires Sound(bufs, hash, pbn, disk, store) && id in bufs && b.key == bufs[id].key && b.key in hash && hash[b.key] == id
    requires Good(b, pbn, disk) && store'(b.key) == (if b.load then b.data else disk(pbn(b.key)))
    requires forall k: nat :: k != b.key ==> store'(k) == store(k)
    ensures Sound(bufs[id := b], hash, pbn, disk, store')
  {
    var bufs' := bufs[id := b];
    assert HashOk(bufs', hash);
    forall k: nat ensures store'(k) == Logical(bufs', hash, pbn, disk, k) {
      assert store(k) == Logical(bufs, hash, pbn, disk, k);
      assert k in hash && k != b.key ==> hash[k] != id;
    }
  }

  /** Writing a dirty buffer to its block. */
  lemma WriteKeeps(bufs: Bufs, hash: map<nat, nat>, pbn: nat -> nat, disk: Disk, store: nat -> Bytes, id: nat, disk': Disk)
    requires Sound(bufs, hash, pbn, disk, store) && id in bufs && bufs[id].load && bufs[id].kind == Flushing
    requires forall x: nat :: disk'(x) == if x == pbn(bufs[id].key) then bufs[id].data else disk(x)
    ensures Sound(bufs, hash, pbn, disk', store)
  {
    var b := bufs[id];
    assert b.key in hash && hash[b.key] == id;
    forall x | x in bufs ensures Good(bufs[x], pbn, disk') {
      assert Good(bufs[x], pbn, disk);
    }
    forall k: nat ensures store(k) == Logical(bufs, hash, pbn, disk', k) {
      assert store(k) == Logical(bufs, hash, pbn, disk, k);
    }
  }

  class Cache {
    const pbn: nat -> nat
    var bufs: Bufs
    var hash: map<nat, nat>
    var lists: Lists
    var counts: map<Kind, int>
    var disk: Disk
    ghost var store: nat -> Bytes     // the blocks as a plain store would hold them

    ghost predicate Valid()
      reads this
    {
      ListsOk(bufs, lists) && CountsOk(lists, counts) && Sound(bufs, hash, pbn, disk, store)
    }

    /** nvfuse_add_buffer_cache: `n` unused buffers. */
    constructor (n: nat, pbn: nat -> nat, disk: Disk)
      requires Translation(pbn)
      ensures Valid() && this.pbn == pbn && this.disk == disk && |lists[Unused]| == n
      ensures forall k: nat :: store(k) == disk(pbn(k))
    {
      this.pbn, this.disk, hash := pbn, disk, map[];
      store := (k: nat) => disk(pbn(k));
      bufs := FreshBufs(n);
      lists, counts := NewLists(n), NewCounts(n);
      new;
      hide ListsOk, CountsOk, Sound, Translation, FreshBufs, NewLists, NewCounts;
      FreshIs(n, pbn, disk, store);
      FreshLists(FreshBufs(n), n);
      FreshCounts(n);
    }

    /** nvfuse_move_buffer_list_nolock, together with new flags for the buffer. */
    method Move(id: nat, b: Buf, tail: bool)
      requires ListsOk(bufs, lists) && CountsOk(lists, counts) && id in bufs
      modifies this`bufs, this`lists, this`counts
      ensures ListsOk(bufs, lists) && CountsOk(lists, counts) && bufs == old(bufs)[id := b]
      ensures var from := old(bufs)[id].kind;
        if from == b.kind then lists == old(lists) else from in old(lists) && b.kind in old(lists) && lists == Moved(old(lists), id, from, b.kind, tail)
    {
      var from := bufs[id].kind;
      if from == b.kind {
        SameKind(bufs, lists, id, b);
      } else {
        MovedOk(bufs, lists, counts, id, b, tail);
        lists, counts := Moved(lists, id, from, b.kind, tail), MovedCounts(counts, from, b.kind);
      }
      bufs := bufs[id := b];
    }

    /** nvfuse_replace_buffer_cache: the victim is the last unused buffer, or else the last
        clean one; it leaves the hash. */
    method TakeVictim() returns (id: nat)
      requires Valid() && lists[Unused] + lists[Clean] != []
      modifies this`hash
      ensures id in bufs && (bufs[id].kind == Unused || bufs[id].kind == Clean) && hash == Unhashed(bufs, old(hash), id)
      ensures var t := if lists[Unused] != [] then Unused else Clean; lists[t] != [] && id == lists[t][|lists[t]| - 1]
    {
      var t := if counts[Unused] != 0 then Unused else Clean;
      OnItsList(bufs, lists, t, |lists[t]| - 1);
      id := lists[t][|lists[t]| - 1];
      var key := bufs[id].key;
      if key in hash && hash[key] == id {
        hash := hash - {key};
      }
    }

    /** nvfuse_find_bc on a miss: a victim becomes the buffer of `key`, empty and held. */
    method Miss(key: nat) returns (id: nat)
      requires Valid() && key !in hash && lists[Unused] + lists[Clean] != []
      modifies this`bufs, this`hash, this`lists, this`counts
      ensures Valid() && key in hash && hash[key] == id && id in bufs && bufs[id].kind == Ref
      ensures bufs[id] == Buf(Ref, key, pbn(key), [], false, false, false, 1)
      ensures Ref in lists && Ref in old(lists) && lists[Ref] == [id] + old(lists)[Ref]
    {
      hide ListsOk, CountsOk, Sound, Unhashed, Moved;
      ghost var bufs0, hash0 := bufs, hash;
      id := TakeVictim();
      NotDirty(bufs0, hash0, pbn, disk, store, id);
      EvictKeeps(bufs0, hash0, pbn, disk, store, id, key, []);
      hash := hash[key := id];
      MovedTo(bufs, lists, id, Ref, false);
      Move(id, Buf(Ref, key, pbn(key), [], false, false, false, 1), false);
    }

    /** nvfuse_find_bc on a hit: the buffer is held, which takes it off its list. */
    method Hit(key: nat) returns (id: nat)
      requires Valid() && key in hash && bufs[hash[key]].kind != Ref && bufs[hash[key]].kind != Flushing
      modifies this`bufs, this`lists, this`counts
      ensures Valid() && id == hash[key] && id in bufs && bufs[id].kind == Ref && bufs[id].key == key
      ensures Ref in lists && Ref in old(lists) && lists[Ref] == [id] + old(lists)[Ref]
    {
      id := hash[key];
      var b := bufs[id];
      HitIsGood(bufs, hash, pbn, disk, store, key);
      var b' := b.(kind := Ref, refs := 1, pno := if b.pno == 0 then pbn(key) else b.pno);
      BufferKeeps(bufs, hash, pbn, disk, store, id, b', store);
      hide ListsOk, CountsOk, Sound, Moved;
      MovedTo(bufs, lists, id, Ref, false);
      Move(id, b', false);
    }

    /** nvfuse_get_bc: the buffer for `key`, loaded from its block when the caller wants to
        read it and it is not there yet. A reader gets the block of the plain store.

        Without an unused or clean buffer for a new key the dirty ones are flushed, and a victim is
        then looked for among the dirty ones: there is none left, and the source stops (`ok` is false). */
    method Get(key: nat, syncRead: bool) returns (ok: bool, id: nat)
      requires Valid() && (key in hash ==> bufs[hash[key]].kind != Ref && bufs[hash[key]].kind != Flushing)
      requires key !in hash && lists[Unused] + lists[Clean] == [] ==> lists[Flushing] == []
      modifies this`bufs, this`hash, this`lists, this`counts, this`disk
      ensures Valid() && ok == (key in old(hash) || old(lists)[Unused] + old(lists)[Clean] != [])
      ensures ok ==> key in hash && hash[key] == id && id in bufs && bufs[id].kind == Ref && bufs[id].key == key && disk == old(disk)
      ensures ok ==> Ref in lists && Ref in old(lists) && lists[Ref] == [id] + old(lists)[Ref]
      ensures ok && syncRead ==> bufs[id].load
      ensures ok && bufs[id].load ==> bufs[id].data == store(key)
      ensures !ok ==> lists[Dirty] == [] && hash == old(hash)
    {
      ok, id := true, 0;
      if key in hash {
        id := Hit(key);
      } else if counts[Unused] != 0 || counts[Clean] != 0 {
        id := Miss(key);
      } else {
        FlushDirtyData();
        ok := counts[Dirty] != 0;
        return;
      }
      Load(key, id, syncRead);
    }

    /** The end of nvfuse_get_bc: reads the block. */
    method Load(key: nat, id: nat, syncRead: bool)
      requires Valid() && key in hash && hash[key] == id && id in bufs && bufs[id].kind == Ref && bufs[id].key == key
      modifies this`bufs, this`lists, this`counts
      ensures Valid() && id in bufs && bufs[id].kind == Ref && bufs[id].key == key && lists == old(lists)
      ensures syncRead ==> bufs[id].load
      ensures bufs[id].load ==> bufs[id].data == store(key)
    {
      LoadedIs(bufs, hash, pbn, disk, store, key);
      var b := bufs[id];
      if syncRead && !b.load {
        var b' := b.(data := disk(b.pno), load := true);
        BufferKeeps(bufs, hash, pbn, disk, store, id, b', store);
        hide ListsOk, CountsOk, Sound;
        Move(id, b', false);
      }
    }

    /** nvfuse_release_bc: `data` is what the holder left in the buffer; without `dirty` that
        must be what it found. The buffer goes to the head of its list, where it is the last to become a
        victim, or with `tail` to the end. */
    method Release(key: nat, data: Bytes, dirty: bool, tail: bool)
      requires Valid() && key in hash && bufs[hash[key]].kind == Ref
      requires !dirty ==> data == bufs[hash[key]].data
      modifies this`bufs, this`lists, this`counts, this`store
      ensures Valid() && key in hash && hash[key] in bufs
      ensures bufs[hash[key]].kind == if dirty || old(bufs[hash[key]].dirty) then Dirty else Clean
      ensures forall k: nat :: store(k) == if k == key && dirty then data else old(store)(k)
      ensures var id, to := hash[key], bufs[hash[key]].kind;
        && to in lists && to in old(lists) && lists[to] == (if tail then old(lists)[to] + [id] else [id] + old(lists)[to])
        && forall t: Kind :: t != to && t != Ref ==> t in lists && t in old(lists) && lists[t] == old(lists)[t]
    {
      var id := hash[key];
      var b := bufs[id];
      HitIsGood(bufs, hash, pbn, disk, store, key);
      var b' := if dirty || b.dirty then b.(kind := Dirty, refs := 0, data := data, dirty := true, load := true)
                else b.(kind := Clean, refs := 0, data := data);
      ghost var store0 := store;
      ghost var store' := (k: nat) => if k == key && dirty then data else store0(k);
      BufferKeeps(bufs, hash, pbn, disk, store, id, b', store');
      hide ListsOk, CountsOk, Sound, Moved;
      MovedTo(bufs, lists, id, b'.kind, tail);
      Move(id, b', tail);
      store := store';
    }

    /** nvfuse_move_bc_to_unused_list: the buffer of a block that is given up. What it held
        is forgotten. */
    method Forget(key: nat)
      requires Valid() && (key in hash ==> bufs[hash[key]].kind != Ref && bufs[hash[key]].kind != Flushing)
      modifies this`bufs, this`lists, this`counts, this`store
      ensures Valid()
      ensures forall k: nat :: store(k) == if k == key && key in hash then disk(pbn(k)) else old(store)(k)
      ensures key in hash && hash[key] in old(bufs) && old(bufs)[hash[key]].kind != Unused ==>
        Unused in lists && Unused in old(lists) && lists[Unused] == [hash[key]] + old(lists)[Unused]
    {
      if key in hash {
        var id := hash[key];
        HitIsGood(bufs, hash, pbn, disk, store, key);
        var b' := bufs[id].(kind := Unused, load := false, pno := 0, dirty := false, refs := 0);
        ghost var store0, block := store, disk(pbn(key));
        ghost var store' := (k: nat) => if k == key then block else store0(k);
        BufferKeeps(bufs, hash, pbn, disk, store, id, b', store');
        hide ListsOk, CountsOk, Sound, Moved;
        if bufs[id].kind != Unused { MovedTo(bufs, lists, id, Unused, false); }
        Move(id, b', false);
        store := store';
      }
    }

    // ------------------------------------------------------------------ flushing

    /** Collects dirty buffers for one round, from the head of their list: at most AIO_MAX_QDEPTH of them. */
    method Collect() returns (count: nat)
      requires Valid() && lists[Dirty] != [] && lists[Flushing] == []
      modifies this`bufs, this`lists, this`counts
      ensures Valid() && count == if |old(lists)[Dirty]| < 512 then |old(lists)[Dirty]| else 512
      ensures lists[Dirty] == old(lists)[Dirty][count..] && |lists[Flushing]| == count
      ensures forall i :: 0 <= i < count ==> lists[Flushing][i] == old(lists)[Dirty][count - 1 - i]
    {
      hide ListsOk, CountsOk, Sound, Moved, Good;
      ListsThere(bufs, lists, Flushing);
      ListsThere(bufs, lists, Dirty);
      count := 0;
      ghost var was := lists[Dirty];
      while count < AIO_MAX_QDEPTH && lists[Dirty] != []
        invariant Valid() && 0 <= count <= AIO_MAX_QDEPTH && Dirty in lists && Flushing in lists
        invariant count <= |was| && lists[Dirty] == was[count..] && |lists[Flushing]| == count
        invariant forall i :: 0 <= i < count ==> lists[Flushing][i] == was[count - 1 - i]
        decreases AIO_MAX_QDEPTH - count
      {
        var id := lists[Dirty][0];
        OnItsList(bufs, lists, Dirty, 0);
        FirstMoves(bufs, lists, Dirty, Flushing);
        CollectKeeps(bufs, hash, pbn, disk, store, id);
        Move(id, bufs[id].(kind := Flushing, flush := true), false);
        count := count + 1;
      }
    }

    /** nvfuse_sync_dirty_data: every buffer on the flushing list is written to its block. */
    method SyncDirty()
      requires Valid()
      modifies this`disk
      ensures Valid() && Synced(bufs, pbn, disk)
    {
      ListsThere(bufs, lists, Flushing);
      hide ListsOk, CountsOk, Sound, Written, Good;
      var jobs := lists[Flushing];
      for i := 0 to |jobs|
        invariant Valid() && forall j :: 0 <= j < i ==> Written(bufs, jobs[j], pbn, disk)
      {
        OnItsList(bufs, lists, Flushing, i);
        ghost var disk0 := disk;
        WriteBlock(jobs[i]);
        WriteIsSound(bufs, hash, pbn, disk0, store, jobs[i], disk);
        forall j | 0 <= j < i + 1 ensures Written(bufs, jobs[j], pbn, disk) {
          OnItsList(bufs, lists, Flushing, j);
          StaysWritten(bufs, hash, pbn, disk0, store, jobs[i], disk, jobs[j]);
        }
      }
      AllSynced(bufs, lists, pbn, disk);
    }

    /** The device write of one job. */
    method WriteBlock(id: nat)
      requires id in bufs
      modifies this`disk
      ensures forall x: nat :: disk(x) == if x == bufs[id].pno then bufs[id].data else old(disk)(x)
    {
      var b, disk0 := bufs[id], disk;
      disk := (x: nat) => if x == b.pno then b.data else disk0(x);
    }

    /** Flushed buffers become clean, at the head of the clean list. */
    method Finish()
      requires Valid() && Synced(bufs, pbn, disk)
      modifies this`bufs, this`lists, this`counts
      ensures Valid() && lists[Flushing] == [] && lists[Dirty] == old(lists)[Dirty]
      ensures var was, n := old(lists)[Flushing], |old(lists)[Flushing]|;
        && |lists[Clean]| == n + |old(lists)[Clean]| && lists[Clean][n..] == old(lists)[Clean]
        && forall i :: 0 <= i < n ==> lists[Clean][i] == was[n - 1 - i]
    {
      hide ListsOk, CountsOk, Sound, Moved, Good, Synced;
      ListsThere(bufs, lists, Flushing);
      ListsThere(bufs, lists, Dirty);
      ListsThere(bufs, lists, Clean);
      ghost var was, clean, n := lists[Flushing], lists[Clean], 0;
      while lists[Flushing] != []
        invariant Valid() && Synced(bufs, pbn, disk) && Dirty in lists && Flushing in lists && lists[Dirty] == old(lists)[Dirty]
        invariant n <= |was| && lists[Flushing] == was[n..] && Clean in lists && |lists[Clean]| == n + |clean| && lists[Clean][n..] == clean
        invariant forall i :: 0 <= i < n ==> lists[Clean][i] == was[n - 1 - i]
        decreases |lists[Flushing]|
      {
        var id := lists[Flushing][0];
        OnItsList(bufs, lists, Flushing, 0);
        ListsThere(bufs, lists, Clean);
        FirstMoves(bufs, lists, Flushing, Clean);
        FinishKeeps(bufs, hash, pbn, disk, store, id);
        Move(id, bufs[id].(kind := Clean, dirty := false, flush := false), false);
        n := n + 1;
      }
    }

    /** nvfuse_flush_dirty_data: the dirty list shrinks with every round; in the end the disk
        holds the plain store, but for what is being held just now. */
    method FlushDirtyData()
      requires Valid() && lists[Flushing] == []
      modifies this`bufs, this`lists, this`counts, this`disk
      ensures Valid() && lists[Dirty] == [] && lists[Flushing] == []
      ensures forall k: nat :: store(k) == disk(pbn(k)) || (k in hash && hash[k] in bufs && bufs[hash[k]].kind == Ref)
    {
      while counts[Dirty] != 0
        invariant Valid() && lists[Flushing] == []
        decreases |lists[Dirty]|
      {
        var count := Collect();
        SyncDirty();
        Finish();
      }
      AllOnDisk(bufs, hash, lists, pbn, disk, store);
    }
  }

  lemma CollectKeeps(bufs: Bufs, hash: map<nat, nat>, pbn: nat -> nat, disk: Disk, store: nat -> Bytes, id: nat)
    requires Sound(bufs, hash, pbn, disk, store) && id in bufs && bufs[id].kind == Dirty
    ensures Sound(bufs[id := bufs[id].(kind := Flushing, flush := true)], hash, pbn, disk, store)
  {
    InUse(bufs, hash, pbn, disk, store, id);
    hide Sound;
    BufferKeeps(bufs, hash, pbn, disk, store, id, bufs[id].(kind := Flushing, flush := true), store);
  }

  lemma FinishKeeps(bufs: Bufs, hash: map<nat, nat>, pbn: nat -> nat, disk: Disk, store: nat -> Bytes, id: nat)
    requires Sound(bufs, hash, pbn, disk, store) && id in bufs && bufs[id].kind == Flushing && Synced(bufs, pbn, disk)
    ensures var bufs' := bufs[id := bufs[id].(kind := Clean, dirty := false, flush := false)];
      Sound(bufs', hash, pbn, disk, store) && Synced(bufs', pbn, disk)
  {
    var b' := bufs[id].(kind := Clean, dirty := false, flush := false);
    assert Written(bufs, id, pbn, disk);
    InUse(bufs, hash, pbn, disk, store, id);
    forall x | x in bufs && x != id && bufs[x].kind == Flushing ensures Written(bufs[id := b'], x, pbn, disk) {
      assert Written(bufs, x, pbn, disk);
    }
    hide Sound;
    BufferKeeps(bufs, hash, pbn, disk, store, id, b', store);
  }

  /** The buffer `id` has reached its block. */
  ghost predicate Written(bufs: Bufs, id: nat, pbn: nat -> nat, disk: Disk) {
    id in bufs && bufs[id].data == disk(pbn(bufs[id].key))
  }

  ghost predicate Synced(bufs: Bufs, pbn: nat -> nat, disk: Disk) {
    forall id :: id in bufs && bufs[id].kind == Flushing ==> Written(bufs, id, pbn, disk)
  }

  lemma InUse(bufs: Bufs, hash: map<nat, nat>, pbn: nat -> nat, disk: Disk, store: nat -> Bytes, id: nat)
    requires Sound(bufs, hash, pbn, disk, store) && id in bufs && bufs[id].kind != Unused
    ensures var b := bufs[id];
      && b.key in hash && hash[b.key] == id && Good(b, pbn, disk) && b.pno == pbn(b.key)
      && store(b.key) == if b.load then b.data else disk(pbn(b.key))
  {
    HitIsGood(bufs, hash, pbn, disk, store, bufs[id].key);
  }

  lemma StaysWritten(bufs: Bufs, hash: map<nat, nat>, pbn: nat -> nat, disk: Disk, store: nat -> Bytes, id: nat, disk': Disk, other: nat)
    requires Sound(bufs, hash, pbn, disk, store) && id in bufs && bufs[id].kind == Flushing
    requires forall x: nat :: disk'(x) == if x == bufs[id].pno then bufs[id].data else disk(x)
    requires other in bufs && bufs[other].kind == Flushing && (other == id || Written(bufs, other, pbn, disk))
    ensures Written(bufs, other, pbn, disk')
  {
    InUse(bufs, hash, pbn, disk, store, id);
    InUse(bufs, hash, pbn, disk, store, other);
  }

  lemma WriteIsSound(bufs: Bufs, hash: map<nat, nat>, pbn: nat -> nat, disk: Disk, store: nat -> Bytes, id: nat, disk': Disk)
    requires Sound(bufs, hash, pbn, disk, store) && id in bufs && bufs[id].kind == Flushing
    requires forall x: nat :: disk'(x) == if x == bufs[id].pno then bufs[id].data else disk(x)
    ensures Sound(bufs, hash, pbn, disk', store)
  {
    InUse(bufs, hash, pbn, disk, store, id);
    hide Sound;
    WriteKeeps(bufs, hash, pbn, disk, store, id, disk');
  }

  lemma AllSynced(bufs: Bufs, lists: Lists, pbn: nat -> nat, disk: Disk)
    requires ListsOk(bufs, lists) && Flushing in lists
    requires forall j :: 0 <= j < |lists[Flushing]| ==> Written(bufs, lists[Flushing][j], pbn, disk)
    ensures Synced(bufs, pbn, disk)
  {
    var s := lists[Flushing];
    assert ListOk(bufs, s, Flushing);
    forall id | id in bufs && bufs[id].kind == Flushing ensures Written(bufs, id, pbn, disk) {
      assert id in Members(s);
      var j :| 0 <= j < |s| && s[j] == id;
    }
  }

  lemma AllOnDisk(bufs: Bufs, hash: map<nat, nat>, lists: Lists, pbn: nat -> nat, disk: Disk, store: nat -> Bytes)
    requires Sound(bufs, hash, pbn, disk, store) && ListsOk(bufs, lists)
    requires Dirty in lists && Flushing in lists && lists[Dirty] == [] && lists[Flushing] == []
    ensures forall k: nat :: store(k) == disk(pbn(k)) || (k in hash && hash[k] in bufs && bufs[hash[k]].kind == Ref)
  {
    assert ListOk(bufs, lists[Dirty], Dirty) && ListOk(bufs, lists[Flushing], Flushing);
    assert OfKind(bufs, Dirty) == {} && OfKind(bufs, Flushing) == {};
    forall k: nat ensures store(k) == disk(pbn(k)) || (k in hash && hash[k] in bufs && bufs[hash[k]].kind == Ref) {
      assert store(k) == Logical(bufs, hash, pbn, disk, k);
      if k in hash {
        var id := hash[k];
        HitIsGood(bufs, hash, pbn, disk, store, k);
        assert id !in OfKind(bufs, Dirty) && id !in OfKind(bufs, Flushing);
      }
    }
  }

  function FreshBufs(n: nat): Bufs {
    if n == 0 then map[] else FreshBufs(n - 1)[n - 1 := Buf(Unused, 0, 0, [], false, false, false, 0)]
  }

  lemma {:induction false} FreshEach(n: nat)
    ensures forall i: nat :: i in FreshBufs(n) <==> i < n
    ensures forall i :: i in FreshBufs(n) ==> FreshBufs(n)[i] == Buf(Unused, 0, 0, [], false, false, false, 0)
  {
    if n > 0 { FreshEach(n - 1); }
  }

  lemma FreshIs(n: nat, pbn: nat -> nat, disk: Disk, store: nat -> Bytes)
    requires Translation(pbn) && forall k: nat :: store(k) == disk(pbn(k))
    ensures forall i: nat :: i in FreshBufs(n) <==> i < n
    ensures forall i :: i in FreshBufs(n) ==> FreshBufs(n)[i].kind == Unused
    ensures Sound(FreshBufs(n), map[], pbn, disk, store)
  {
    FreshEach(n);
    hide FreshBufs, Translation;
  }

  lemma NotDirty(bufs: Bufs, hash: map<nat, nat>, pbn: nat -> nat, disk: Disk, store: nat -> Bytes, id: nat)
    requires Sound(bufs, hash, pbn, disk, store) && id in bufs && (bufs[id].kind == Unused || bufs[id].kind == Clean)
    ensures !bufs[id].dirty
  {
    assert Good(bufs[id], pbn, disk);
  }

  lemma HitIsGood(bufs: Bufs, hash: map<nat, nat>, pbn: nat -> nat, disk: Disk, store: nat -> Bytes, key: nat)
    requires Sound(bufs, hash, pbn, disk, store) && key in hash
    ensures hash[key] in bufs && bufs[hash[key]].key == key && Good(bufs[hash[key]], pbn, disk) && pbn(key) != 0
    ensures store(key) == if bufs[hash[key]].load then bufs[hash[key]].data else disk(pbn(key))
  {
    assert store(key) == Logical(bufs, hash, pbn, disk, key);
  }

  lemma LoadedIs(bufs: Bufs, hash: map<nat, nat>, pbn: nat -> nat, disk: Disk, store: nat -> Bytes, key: nat)
    requires Sound(bufs, hash, pbn, disk, store) && key in hash
    ensures hash[key] in bufs && Good(bufs[hash[key]], pbn, disk)
    ensures bufs[hash[key]].load ==> bufs[hash[key]].data == store(key)
  {
    HitIsGood(bufs, hash, pbn, disk, store, key);
  }

  function NewLists(n: nat): Lists {
    map[Unused := seq(n, i => i), Ref := [], Clean := [], Dirty := [], Flushing := []]
  }

  function NewCounts(n: nat): map<Kind, int> {
    map[Unused := n, Ref := 0, Clean := 0, Dirty := 0, Flushing := 0]
  }

  lemma FreshCounts(n: nat)
    ensures CountsOk(NewLists(n), NewCounts(n)) && Unused in NewLists(n) && |NewLists(n)[Unused]| == n
  {
    forall t: Kind ensures t in NewLists(n) && t in NewCounts(n) && NewCounts(n)[t] == |NewLists(n)[t]| {
      match t
      case Unused =>
      case Ref =>
      case Clean =>
      case Dirty =>
      case Flushing =>
    }
  }

  /** Moving the first buffer of one list to the head of another. */
  lemma FirstMoves(bufs: Bufs, lists: Lists, from: Kind, to: Kind)
    requires ListsOk(bufs, lists) && from in lists && to in lists && from != to && lists[from] != []
    ensures var l := Moved(lists, lists[from][0], from, to, false);
      && from in l && to in l && l[from] == lists[from][1..] && l[to] == [lists[from][0]] + lists[to]
      && forall t: Kind :: t != from && t != to && t in lists ==> t in l && l[t] == lists[t]
  {
    assert ListOk(bufs, lists[from], from);
    DelIs(lists[from], lists[from][0]);
  }

  lemma ListsThere(bufs: Bufs, lists: Lists, t: Kind)
    requires ListsOk(bufs, lists)
    ensures t in lists
  {
  }

  lemma FreshLists(bufs: Bufs, n: nat)
    requires forall i: nat :: i in bufs <==> i < n
    requires forall i :: i in bufs ==> bufs[i].kind == Unused
    ensures ListsOk(bufs, NewLists(n))
  {
    var lists := NewLists(n);
    forall t: Kind ensures t in lists && ListOk(bufs, lists[t], t) {
      if t == Unused {
        var s := lists[Unused];
        forall x: nat ensures x in s <==> x < n {
          if x < n { assert s[x] == x; }
        }
        assert Members(s) == OfKind(bufs, Unused);
      }
    }
  }
}
