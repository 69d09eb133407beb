/** The submission and completion rings of a reactor task (nvfuse_reactor.c). */
module ReactorRing {

  /** Number of entries between tail and head of a ring of `q` slots. */
  function RingSize(tail: nat, head: nat, q: nat): int {
    if tail <= head then head - tail else q - tail + head
  }

  function Wrap(x: nat, q: nat): nat {
    if x < q then x else x - q
  }

  lemma ModIsWrap(x: nat, q: nat)
    requires x < 2 * q
    ensures x % q == Wrap(x, q)
  {
  }

  /** The entries from tail to head. */
  ghost function Window(slots: seq<nat>, tail: nat, head: nat, q: nat): (w: seq<nat>)
    requires 0 < q <= |slots| && tail < q && head < q
    ensures |w| == RingSize(tail, head, q) && forall i :: 0 <= i < |w| ==> w[i] == slots[Wrap(tail + i, q)]
  {
    seq(RingSize(tail, head, q), i requires 0 <= i < RingSize(tail, head, q) => slots[Wrap(tail + i, q)])
  }

  lemma WindowPut(s: seq<nat>, tail: nat, head: nat, q: nat, req: nat)
    requires 0 < q <= |s| && tail < q && head < q && RingSize(tail, head, q) < q - 1
    ensures Window(s[head := req], tail, Wrap(head + 1, q), q) == Window(s, tail, head, q) + [req]
  {
    var v, w := Window(s, tail, head, q), Window(s[head := req], tail, Wrap(head + 1, q), q);
    assert |w| == |v| + 1;
    forall i | 0 <= i < |v| ensures w[i] == v[i] {
      assert Wrap(tail + i, q) != head;
    }
    assert Wrap(tail + |v|, q) == head;
    assert w == v + [req];
  }

  lemma WindowGet(s: seq<nat>, tail: nat, head: nat, q: nat, x: nat)
    requires 0 < q <= |s| && tail < q && head < q && tail != head
    ensures [s[tail]] + Window(s[tail := x], Wrap(tail + 1, q), head, q) == Window(s, tail, head, q)
  {
    var v, w := Window(s, tail, head, q), Window(s[tail := x], Wrap(tail + 1, q), head, q);
    assert |v| == |w| + 1;
    assert v[0] == s[Wrap(tail + 0, q)] == s[tail];
    forall i | 0 <= i < |w| ensures w[i] == v[i + 1] {
      assert Wrap(Wrap(tail + 1, q) + i, q) == Wrap(tail + (i + 1), q) != tail;
    }
    assert v == [v[0]] + v[1..];
    assert v[1..] == w;
  }

  class Ring {
    const slots: array<nat>
    const qdepth: nat
    var head: nat
    var tail: nat

    ghost predicate Valid()
      reads this
    {
      0 < qdepth <= slots.Length && head < qdepth && tail < qdepth
    }

    /** The queue the ring stands for. */
    ghost function Queue(): (s: seq<nat>)
      requires Valid()
      reads this, slots
      ensures |s| < qdepth
    {
      Window(slots[..], tail, head, qdepth)
    }

    /** The ring part of reactor_alloc_task: one slot more than the batch needs. */
    constructor (depth: nat)
      ensures Valid() && qdepth == depth + 1 && Queue() == [] && fresh(slots)
    {
      qdepth := depth + 1;
      slots := new nat[depth + 1](_ => 0);
      head, tail := 0, 0;
    }

    /** reactor_sq_is_empty, reactor_cq_is_empty. */
    method IsEmpty() returns (b: bool)
      requires Valid()
      ensures b == (Queue() == [])
    {
      b := head == tail;
    }

    /** reactor_sq_is_full, reactor_cq_is_full. */
    method IsFull() returns (b: bool)
      requires Valid()
      ensures b == (|Queue()| == qdepth - 1)
    {
      if tail <= head {
        b := head - tail == qdepth - 1;
      } else {
        b := head + 1 == tail;
      }
    }

    /** reactor_sq_size, reactor_cq_size. */
    method Size() returns (n: nat)
      requires Valid()
      ensures n == |Queue()|
    {
      if tail <= head {
        n := head - tail;
      } else {
        n := qdepth - tail + head;
      }
    }

    /** reactor_sq_put_req, reactor_cq_put_req: -1 when full, else the request is last. */
    method Put(req: nat) returns (res: int)
      requires Valid()
      modifies this`head, slots
      ensures Valid() && res == if |old(Queue())| == qdepth - 1 then -1 else 0
      ensures Queue() == if res == 0 then old(Queue()) + [req] else old(Queue())
    {
      var full := IsFull();
      if full {
        return -1;
      }
      WindowPut(slots[..], tail, head, qdepth, req);
      ModIsWrap(head + 1, qdepth);
      ghost var s := slots[..];
      slots[head] := req;
      assert slots[..] == s[head := req];
      head := (head + 1) % qdepth;
      res := 0;
    }

    /** reactor_sq_get_req: the first request. */
    method Get() returns (found: bool, req: nat)
      requires Valid()
      modifies this`tail, slots
      ensures Valid() && found == (old(Queue()) != [])
      ensures found ==> [req] + Queue() == old(Queue())
      ensures !found ==> Queue() == old(Queue())
    {
      var empty := IsEmpty();
      if empty {
        return false, 0;
      }
      WindowGet(slots[..], tail, head, qdepth, 0);
      ModIsWrap(tail + 1, qdepth);
      ghost var s := slots[..];
      req := slots[tail];
      slots[tail] := 0;
      assert slots[..] == s[tail := 0];
      tail := (tail + 1) % qdepth;
      found := true;
    }

    /** reactor_cq_get_reqs once at least one request is there: up to `max` requests, in
        order. */
    method GetMany(max: nat) returns (reqs: seq<nat>)
      requires Valid()
      modifies this`tail, slots
      ensures Valid() && reqs + Queue() == old(Queue())
      ensures |reqs| == if |old(Queue())| > max then max else |old(Queue())|
    {
      var n := Size();
      n := if n > max then max else n;
      reqs := [];
      for i := 0 to n
        invariant Valid() && reqs + Queue() == old(Queue()) && |reqs| == i
      {
        var found, req := Get();
        assert reqs + ([req] + Queue()) == (reqs + [req]) + Queue();
        reqs := reqs + [req];
      }
    }
  }
}
