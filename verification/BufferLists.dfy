/** Buffers and the lists they are on (nvfuse_buffer_cache.c). */
module BufferLists {
  import opened Sequences

  type Bytes = seq<int>

  /** BUFFER_TYPE_UNUSED, _REF, _CLEAN, _DIRTY and _FLUSHING. */
  datatype Kind = Unused | Ref | Clean | Dirty | Flushing

  /** struct nvfuse_buffer_cache: `key` is bc_bno, `pno` 0 means "not translated yet". */
  datatype Buf = Buf(kind: Kind, key: nat, pno: nat, data: Bytes, load: bool, dirty: bool, flush: bool, refs: nat)

  type Bufs = map<nat, Buf>
  type Lists = map<Kind, seq<nat>>

  ghost function Members(s: seq<nat>): set<nat> {
    set x | x in s
  }

  ghost function OfKind(bufs: Bufs, t: Kind): set<nat> {
    set id | id in bufs && bufs[id].kind == t
  }

  ghost predicate ListOk(bufs: Bufs, s: seq<nat>, t: Kind) {
    NoDuplicates(s) && Members(s) == OfKind(bufs, t)
  }

  /** Every buffer is on exactly one list, the one of its kind, once. */
  ghost predicate ListsOk(bufs: Bufs, lists: Lists) {
    forall t: Kind :: t in lists && ListOk(bufs, lists[t], t)
  }

  ghost predicate CountsOk(lists: Lists, counts: map<Kind, int>) {
    forall t: Kind :: t in lists && t in counts && counts[t] == |lists[t]|
  }

  /** list_del. */
  function Del(s: seq<nat>, x: nat): (r: seq<nat>) {
    if s == [] then [] else if s[0] == x then s[1..] else [s[0]] + Del(s[1..], x)
  }

  lemma {:induction false} DelIs(s: seq<nat>, x: nat)
    requires NoDuplicates(s) && x in s
    ensures NoDuplicates(Del(s, x)) && Members(Del(s, x)) == Members(s) - {x} && |Del(s, x)| == |s| - 1
  {
    if s[0] == x {
      assert s == [s[0]] + s[1..];
      assert forall i :: 1 <= i < |s| ==> s[i] != x;
      assert forall y :: y in s[1..] ==> exists i :: 1 <= i < |s| && s[i] == y;
    } else {
      var t := s[1..];
      assert s == [s[0]] + t;
      assert NoDuplicates(t) && x in t;
      DelIs(t, x);
      var d := Del(t, x);
      assert s[0] !in t by { assert forall i :: 0 <= i < |t| ==> t[i] == s[i + 1]; }
      assert s[0] in d <==> s[0] in Members(d);
      Cons(s[0], d);
      assert Members(s) == {s[0]} + Members(t);
    }
  }

  lemma Cons(x: nat, s: seq<nat>)
    requires NoDuplicates(s) && x !in s
    ensures NoDuplicates([x] + s) && Members([x] + s) == Members(s) + {x} && NoDuplicates(s + [x]) && Members(s + [x]) == Members(s) + {x}
  {
    var a, b := [x] + s, s + [x];
    assert forall i :: 1 <= i < |a| ==> a[i] == s[i - 1] && a[i] in s;
    assert forall i :: 0 <= i < |s| ==> b[i] == s[i] && b[i] in s;
  }

  /** list_add and list_add_tail. */
  function Add(s: seq<nat>, x: nat, tail: bool): (r: seq<nat>) {
    if tail then s + [x] else [x] + s
  }

  function Moved(lists: Lists, id: nat, from: Kind, to: Kind, tail: bool): Lists
    requires from in lists && to in lists
  {
    var l := lists[from := Del(lists[from], id)];
    l[to := Add(l[to], id, tail)]
  }

  function MovedCounts(counts: map<Kind, int>, from: Kind, to: Kind): map<Kind, int>
    requires from in counts && to in counts
  {
    var c := counts[from := counts[from] - 1];
    c[to := c[to] + 1]
  }

  /** Moving a buffer to another list, or to the head of its own. */
  lemma MovedOk(bufs: Bufs, lists: Lists, counts: map<Kind, int>, id: nat, b: Buf, tail: bool)
    requires ListsOk(bufs, lists) && CountsOk(lists, counts) && id in bufs
    ensures var from := bufs[id].kind;
      ListsOk(bufs[id := b], Moved(lists, id, from, b.kind, tail)) &&
      CountsOk(Moved(lists, id, from, b.kind, tail), MovedCounts(counts, from, b.kind))
  {
    var from, to := bufs[id].kind, b.kind;
    var s := lists[from];
    assert ListOk(bufs, s, from) && ListOk(bufs, lists[to], to);
    assert id in OfKind(bufs, from) && id in s by { assert id in Members(s); }
    DelIs(s, id);
    var d := Del(s, id);
    assert id in d <==> id in Members(d);
    if to != from {
      assert id in lists[to] <==> id in Members(lists[to]);
      Cons(id, lists[to]);
    } else {
      Cons(id, d);
    }
    var bufs', l := bufs[id := b], Moved(lists, id, from, to, tail);
    forall t: Kind ensures t in l && ListOk(bufs', l[t], t) {
      assert ListOk(bufs, lists[t], t);
      KindsAfter(bufs, id, b, t);
    }
  }

  lemma KindsAfter(bufs: Bufs, id: nat, b: Buf, t: Kind)
    requires id in bufs
    ensures OfKind(bufs[id := b], t) ==
      if b.kind == t then OfKind(bufs, t) + {id} else if bufs[id].kind == t then OfKind(bufs, t) - {id} else OfKind(bufs, t)
  {
  }

  /** A change that keeps a buffer's kind keeps the lists. */
  lemma SameKind(bufs: Bufs, lists: Lists, id: nat, b: Buf)
    requires ListsOk(bufs, lists) && id in bufs && b.kind == bufs[id].kind
    ensures ListsOk(bufs[id := b], lists)
  {
    forall t: Kind ensures t in lists && ListOk(bufs[id := b], lists[t], t) {
      assert ListOk(bufs, lists[t], t);
      KindsAfter(bufs, id, b, t);
      assert b.kind == t ==> OfKind(bufs, t) + {id} == OfKind(bufs, t);
    }
  }

  lemma OnItsList(bufs: Bufs, lists: Lists, t: Kind, i: nat)
    requires ListsOk(bufs, lists) && t in lists && i < |lists[t]|
    ensures lists[t][i] in bufs && bufs[lists[t][i]].kind == t
  {
    assert ListOk(bufs, lists[t], t);
    assert lists[t][i] in Members(lists[t]);
  }

  /** Every buffer is on the list of its kind, at exactly one place of all lists, and the counts are
      the lengths of the lists. */
  lemma ListsMean(bufs: Bufs, lists: Lists, counts: map<Kind, int>)
    requires ListsOk(bufs, lists) && CountsOk(lists, counts)
    ensures forall t: Kind :: t in lists && t in counts && counts[t] == |lists[t]|
    ensures forall id :: id in bufs ==> bufs[id].kind in lists && id in lists[bufs[id].kind]
    ensures forall t: Kind, i: nat :: t in lists && i < |lists[t]| ==> lists[t][i] in bufs && bufs[lists[t][i]].kind == t
    ensures forall t: Kind, i: nat, j: nat :: t in lists && i < j < |lists[t]| ==> lists[t][i] != lists[t][j]
  {
    forall id | id in bufs ensures bufs[id].kind in lists && id in lists[bufs[id].kind] {
      var t := bufs[id].kind;
      assert ListOk(bufs, lists[t], t);
      assert id in OfKind(bufs, t) && id in Members(lists[t]);
    }
    forall t: Kind, i: nat | t in lists && i < |lists[t]|
      ensures lists[t][i] in bufs && bufs[lists[t][i]].kind == t
    {
      OnItsList(bufs, lists, t, i);
    }
    forall t: Kind, i: nat, j: nat | t in lists && i < j < |lists[t]|
      ensures lists[t][i] != lists[t][j]
    {
      assert ListOk(bufs, lists[t], t);
    }
  }

  /** Where a moved buffer ends up: at one end of its new list; the lists of other kinds stay. */
  lemma MovedTo(bufs: Bufs, lists: Lists, id: nat, to: Kind, tail: bool)
    requires ListsOk(bufs, lists) && id in bufs && bufs[id].kind != to
    ensures var l := Moved(lists, id, bufs[id].kind, to, tail);
      && to in lists && to in l && l[to] == (if tail then lists[to] + [id] else [id] + lists[to])
      && forall t: Kind :: t != to && t != bufs[id].kind ==> t in lists && t in l && l[t] == lists[t]
  {
    assert ListOk(bufs, lists[to], to);
  }
}
