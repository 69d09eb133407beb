/** A batch of requests on its way through a reactor task: submitter, reactor core, device
    and waiter take turns in any order (nvfuse_reactor.c, nvfuse_core.c). Every section
    under one of the rings' mutexes is one step. */
module ReactorTask {
  import opened ReactorRing

  /** Who moves next. The device may complete any request it holds. */
  datatype Action = Submit | Fetch | Complete(i: nat) | Reap

  /** `fetched` and `completed` record the order in which requests reached the device and
      left it. */
  datatype State = State(n: nat, todo: seq<nat>, sq: seq<nat>, inflight: seq<nat>, cq: seq<nat>, got: seq<nat>,
                         fetched: seq<nat>, completed: seq<nat>, full: bool)

  ghost function Start(batch: seq<nat>): State {
    State(|batch|, batch, [], [], [], [], [], [], false)
  }

  ghost predicate Enabled(s: State, a: Action) {
    match a
    case Submit => s.todo != []
    case Fetch => s.sq != []
    case Complete(i) => i < |s.inflight|
    case Reap => s.cq != [] && |s.got| < s.n   // the waiter sleeps until something is there
  }

  function Min(a: nat, b: nat): nat {
    if a < b then a else b
  }

  ghost function Without(s: seq<nat>, i: nat): seq<nat>
    requires i < |s|
  {
    s[..i] + s[i + 1..]
  }

  /** One step. A full ring refuses the request, which is then lost for the batch. */
  ghost function Next(s: State, a: Action): State
    requires Enabled(s, a) && |s.got| <= s.n
  {
    match a
    case Submit =>
      if |s.sq| == s.n then s.(full := true)
      else s.(todo := s.todo[1..], sq := s.sq + [s.todo[0]])
    case Fetch =>
      s.(sq := s.sq[1..], inflight := s.inflight + [s.sq[0]], fetched := s.fetched + [s.sq[0]])
    case Complete(i) =>
      if |s.cq| == s.n then s.(inflight := Without(s.inflight, i), full := true)
      else s.(inflight := Without(s.inflight, i), cq := s.cq + [s.inflight[i]], completed := s.completed + [s.inflight[i]])
    case Reap =>
      var k := Min(|s.cq|, s.n - |s.got|);
      s.(cq := s.cq[k..], got := s.got + s.cq[..k])
  }

  // -------------------------------------------------------- what every run keeps

  /** No ring was ever full; the device got the requests in order of submission; the waiter
      gets them in order of completion; what was fetched is either in flight or completed. */
  ghost predicate Inv(s: State, batch: seq<nat>) {
    && !s.full && s.n == |batch| && batch == s.fetched + s.sq + s.todo && s.completed == s.got + s.cq
    && multiset(s.fetched) == multiset(s.inflight) + multiset(s.completed)
  }

  /** Steps still to be made, at most. */
  ghost function Measure(s: State): nat {
    4 * |s.todo| + 3 * |s.sq| + 2 * |s.inflight| + |s.cq|
  }

  lemma Sizes(s: State, batch: seq<nat>)
    requires Inv(s, batch)
    ensures |s.todo| + |s.sq| + |s.inflight| + |s.cq| + |s.got| == s.n
  {
    assert |multiset(s.fetched)| == |s.fetched|;
    assert |multiset(s.inflight) + multiset(s.completed)| == |s.inflight| + |s.completed|;
  }

  lemma WithoutCounts(s: seq<nat>, i: nat)
    requires i < |s|
    ensures multiset(s) == multiset(Without(s, i)) + multiset{s[i]} && |Without(s, i)| == |s| - 1
  {
    assert s == s[..i] + [s[i]] + s[i + 1..];
  }

  lemma SubmitKeeps(s: State, batch: seq<nat>)
    requires Inv(s, batch) && Enabled(s, Submit) && |s.got| <= s.n && |s.sq| < s.n
    ensures Inv(Next(s, Submit), batch) && Measure(Next(s, Submit)) < Measure(s)
  {
    assert s.todo == [s.todo[0]] + s.todo[1..];
    assert s.fetched + s.sq + s.todo == s.fetched + (s.sq + [s.todo[0]]) + s.todo[1..];
  }

  lemma FetchKeeps(s: State, batch: seq<nat>)
    requires Inv(s, batch) && Enabled(s, Fetch) && |s.got| <= s.n
    ensures Inv(Next(s, Fetch), batch) && Measure(Next(s, Fetch)) < Measure(s)
  {
    assert s.sq == [s.sq[0]] + s.sq[1..];
    assert s.fetched + s.sq + s.todo == (s.fetched + [s.sq[0]]) + s.sq[1..] + s.todo;
  }

  lemma CompleteKeeps(s: State, i: nat, batch: seq<nat>)
    requires Inv(s, batch) && Enabled(s, Complete(i)) && |s.got| <= s.n && |s.cq| < s.n
    ensures Inv(Next(s, Complete(i)), batch) && Measure(Next(s, Complete(i))) < Measure(s)
  {
    WithoutCounts(s.inflight, i);
    assert s.completed + [s.inflight[i]] == s.got + (s.cq + [s.inflight[i]]);
  }

  lemma ReapKeeps(s: State, batch: seq<nat>)
    requires Inv(s, batch) && Enabled(s, Reap) && |s.got| <= s.n
    ensures Inv(Next(s, Reap), batch) && Measure(Next(s, Reap)) < Measure(s)
  {
    var k := Min(|s.cq|, s.n - |s.got|);
    assert s.cq == s.cq[..k] + s.cq[k..];
    assert s.got + s.cq == (s.got + s.cq[..k]) + s.cq[k..];
  }

  /** A ring sized for the batch is never full when a request arrives. */
  lemma NextKeeps(s: State, a: Action, batch: seq<nat>)
    requires Inv(s, batch) && Enabled(s, a)
    ensures |s.got| <= s.n && Inv(Next(s, a), batch) && Measure(Next(s, a)) < Measure(s)
  {
    hide Inv, Next, Measure;
    Sizes(s, batch);
    match a
    case Submit => SubmitKeeps(s, batch);
    case Fetch => FetchKeeps(s, batch);
    case Complete(i) => CompleteKeeps(s, i, batch);
    case Reap => ReapKeeps(s, batch);
  }

  /** Running a schedule; whoever cannot move is skipped. */
  ghost function Run(s: State, schedule: seq<Action>, batch: seq<nat>): (r: State)
    requires Inv(s, batch)
    ensures Inv(r, batch)
    decreases |schedule|
  {
    if schedule == [] then s
    else if !Enabled(s, schedule[0]) then Run(s, schedule[1..], batch)
    else
      NextKeeps(s, schedule[0], batch);
      Run(Next(s, schedule[0]), schedule[1..], batch)
  }

  /** While the waiter has not got everything, somebody can move. */
  lemma SomebodyMoves(s: State, batch: seq<nat>) returns (a: Action)
    requires Inv(s, batch) && |s.got| < s.n
    ensures Enabled(s, a)
  {
    Sizes(s, batch);
    if s.todo != [] {
      a := Submit;
    } else if s.sq != [] {
      a := Fetch;
    } else if s.inflight != [] {
      a := Complete(0);
    } else {
      a := Reap;
    }
  }

  /** When the waiter has got everything, it has got each request of the batch exactly once. */
  lemma EachOnce(s: State, batch: seq<nat>)
    requires Inv(s, batch) && |s.got| == s.n
    ensures multiset(s.got) == multiset(batch) && s.todo == [] && s.sq == [] && s.inflight == [] && s.cq == []
    ensures s.fetched == batch && s.completed == s.got
  {
    Sizes(s, batch);
    assert s.fetched + s.sq + s.todo == s.fetched;
    assert s.got + s.cq == s.got;
    assert multiset(s.inflight) == multiset{};
  }

  /** Steps in a schedule that are really made. */
  ghost function Moves(s: State, schedule: seq<Action>, batch: seq<nat>): nat
    requires Inv(s, batch)
    decreases |schedule|
  {
    if schedule == [] then 0
    else if !Enabled(s, schedule[0]) then Moves(s, schedule[1..], batch)
    else
      NextKeeps(s, schedule[0], batch);
      1 + Moves(Next(s, schedule[0]), schedule[1..], batch)
  }

  /** No run makes more than four steps per request, so every run comes to an end. */
  lemma {:induction false} RunsAreShort(s: State, schedule: seq<Action>, batch: seq<nat>)
    requires Inv(s, batch)
    ensures Moves(s, schedule, batch) + Measure(Run(s, schedule, batch)) <= Measure(s)
    decreases |schedule|
  {
    if schedule != [] {
      if Enabled(s, schedule[0]) {
        NextKeeps(s, schedule[0], batch);
        RunsAreShort(Next(s, schedule[0]), schedule[1..], batch);
      } else {
        RunsAreShort(s, schedule[1..], batch);
      }
    }
  }

  /** The steps of a schedule that are really made. */
  ghost function Made(s: State, schedule: seq<Action>, batch: seq<nat>): seq<Action>
    requires Inv(s, batch)
    decreases |schedule|
  {
    if schedule == [] then []
    else if !Enabled(s, schedule[0]) then Made(s, schedule[1..], batch)
    else
      NextKeeps(s, schedule[0], batch);
      [schedule[0]] + Made(Next(s, schedule[0]), schedule[1..], batch)
  }

  /** The requests that the completions among `acts` name, when the device holds `held` and will be given `feed`
      one after the other: completion number `i` is that of the i-th request it holds. */
  ghost function Named(held: seq<nat>, feed: seq<nat>, acts: seq<Action>): seq<nat>
    decreases |acts|
  {
    if acts == [] then []
    else match acts[0]
      case Fetch => if feed == [] then [] else Named(held + [feed[0]], feed[1..], acts[1..])
      case Complete(i) => if i >= |held| then [] else [held[i]] + Named(held[..i] + held[i + 1..], feed, acts[1..])
      case _ => Named(held, feed, acts[1..])
  }

  /** Requests are completed as the schedule names them. */
  lemma {:induction false} NamedIs(s: State, schedule: seq<Action>, batch: seq<nat>)
    requires Inv(s, batch)
    ensures var r := Run(s, schedule, batch);
      r.got + r.cq == s.got + s.cq + Named(s.inflight, s.sq + s.todo, Made(s, schedule, batch))
    decreases |schedule|
  {
    if schedule != [] {
      var a := schedule[0];
      if Enabled(s, a) {
        NextKeeps(s, a, batch);
        var t := Next(s, a);
        NamedIs(t, schedule[1..], batch);
        NamedStep(s, a, batch, Made(t, schedule[1..], batch));
      } else {
        NamedIs(s, schedule[1..], batch);
      }
    }
  }

  lemma NamedStep(s: State, a: Action, batch: seq<nat>, acts: seq<Action>)
    requires Inv(s, batch) && Enabled(s, a) && |s.got| <= s.n
    ensures var t := Next(s, a);
      s.got + s.cq + Named(s.inflight, s.sq + s.todo, [a] + acts) == t.got + t.cq + Named(t.inflight, t.sq + t.todo, acts)
  {
    Sizes(s, batch);
    var t := Next(s, a);
    assert ([a] + acts)[1..] == acts;
    match a
    case Submit =>
      assert s.sq + s.todo == t.sq + t.todo;
    case Fetch =>
      assert (s.sq + s.todo)[1..] == t.sq + t.todo;
    case Complete(i) =>
      var rest := Named(t.inflight, t.sq + t.todo, acts);
      assert s.got + s.cq + ([s.inflight[i]] + rest) == s.got + (s.cq + [s.inflight[i]]) + rest;
    case Reap =>
      var k := Min(|s.cq|, s.n - |s.got|);
      assert s.cq == s.cq[..k] + s.cq[k..];
      assert s.got + s.cq == t.got + t.cq;
  }

  lemma StartIsFine(batch: seq<nat>)
    ensures Inv(Start(batch), batch) && Measure(Start(batch)) == 4 * |batch|
  {
  }

  // ------------------------------------------------------------ the real rings

  class Task {
    const sq: Ring
    const cq: Ring
    const n: nat
    var todo: seq<nat>
    var inflight: seq<nat>
    var got: seq<nat>
    var full: bool
    ghost var fetched: seq<nat>
    ghost var completed: seq<nat>

    ghost predicate Valid()
      reads this, sq, cq
    {
      && sq.Valid() && cq.Valid() && sq != cq && sq.slots != cq.slots && sq.qdepth == cq.qdepth == n + 1 && |got| <= n
    }

    ghost function Abs(): State
      requires Valid()
      reads this, sq, sq.slots, cq, cq.slots
    {
      State(n, todo, sq.Queue(), inflight, cq.Queue(), got, fetched, completed, full)
    }

    /** reactor_alloc_task for a batch, about to be submitted. */
    constructor (batch: seq<nat>)
      ensures Valid() && Abs() == Start(batch) && Inv(Abs(), batch) && Measure(Abs()) == 4 * |batch|
      ensures n == |batch| && todo == batch && sq.Queue() == [] && inflight == [] && cq.Queue() == [] && got == [] && !full
    {
      n, todo, inflight, got, full := |batch|, batch, [], [], false;
      fetched, completed := [], [];
      sq := new Ring(|batch|);
      cq := new Ring(|batch|);
      new;
      StartIsFine(batch);
    }

    /** One round of the loop in reactor_submit_reqs: the next request of the batch goes to the end of the
        SQ, unless that is full. */
    method SubmitOne()
      requires Valid() && todo != []
      modifies this, sq, sq.slots
      ensures Valid() && Abs() == Next(old(Abs()), Submit)
      ensures |old(sq.Queue())| < n ==> sq.Queue() == old(sq.Queue()) + [old(todo)[0]] && todo == old(todo)[1..] && full == old(full)
      ensures |old(sq.Queue())| >= n ==> sq.Queue() == old(sq.Queue()) && todo == old(todo) && full
      ensures inflight == old(inflight) && cq.Queue() == old(cq.Queue()) && got == old(got)
    {
      var res := sq.Put(todo[0]);
      if res < 0 {
        full := true;
      } else {
        todo := todo[1..];
      }
    }

    /** One round of the loop in reactor_submit_on_core: the first request of the SQ goes to the device. */
    method FetchOne()
      requires Valid() && sq.Queue() != []
      modifies this, sq, sq.slots
      ensures Valid() && Abs() == Next(old(Abs()), Fetch)
      ensures sq.Queue() == old(sq.Queue())[1..] && inflight == old(inflight) + [old(sq.Queue())[0]] && full == old(full)
      ensures todo == old(todo) && cq.Queue() == old(cq.Queue()) && got == old(got)
    {
      ghost var q := sq.Queue();
      var found, req := sq.Get();
      assert q[0] == req && q[1..] == sq.Queue();
      inflight, fetched := inflight + [req], fetched + [req];
    }

    /** reactor_bio_cb for a request the device holds: that request goes to the end of the CQ, unless that is
        full. */
    method CompleteOne(i: nat)
      requires Valid() && i < |inflight|
      modifies this, cq, cq.slots
      ensures Valid() && Abs() == Next(old(Abs()), Complete(i))
      ensures inflight == old(inflight)[..i] + old(inflight)[i + 1..]
      ensures |old(cq.Queue())| < n ==> cq.Queue() == old(cq.Queue()) + [old(inflight)[i]] && full == old(full)
      ensures |old(cq.Queue())| >= n ==> cq.Queue() == old(cq.Queue()) && full
      ensures todo == old(todo) && sq.Queue() == old(sq.Queue()) && got == old(got)
    {
      var req := inflight[i];
      inflight := inflight[..i] + inflight[i + 1..];
      var res := cq.Put(req);
      if res < 0 {
        full := true;
      } else {
        completed := completed + [req];
      }
    }

    /** One round of nvfuse_wait_aio_completion, once the waiter wakes up: it takes from the front of the CQ what
        is there, as far as it still waits for it. */
    method ReapSome()
      requires Valid() && cq.Queue() != [] && |got| < n
      modifies this, cq, cq.slots
      ensures Valid() && Abs() == Next(old(Abs()), Reap)
      ensures got + cq.Queue() == old(got + cq.Queue()) && (cq.Queue() == [] || |got| == n) && |old(got)| < |got| <= n && full == old(full)
      ensures todo == old(todo) && sq.Queue() == old(sq.Queue()) && inflight == old(inflight)
    {
      ghost var q := cq.Queue();
      var reqs := cq.GetMany(n - |got|);
      assert q[..|reqs|] == reqs && q[|reqs|..] == cq.Queue();
      got := got + reqs;
    }

    /** The rings go through the same states as the queues, whatever the schedule. */
    method Drive(schedule: seq<Action>, ghost batch: seq<nat>)
      requires Valid() && Inv(Abs(), batch)
      modifies this, sq, sq.slots, cq, cq.slots
      ensures Valid() && Abs() == Run(old(Abs()), schedule, batch)
      // what the waiter has got and will get are the requests that the completions of the schedule named, in order
      ensures got + cq.Queue() == old(got + cq.Queue()) +
        Named(old(inflight), old(sq.Queue() + todo), Made(old(Abs()), schedule, batch))
      decreases |schedule|
    {
      hide Enabled, Next, Inv;
      var i := 0;
      ghost var s0 := Abs();
      NamedIs(s0, schedule, batch);
      assert schedule[0..] == schedule;
      while i < |schedule|
        invariant i <= |schedule| && Valid() && Inv(Abs(), batch)
        invariant Run(Abs(), schedule[i..], batch) == Run(s0, schedule, batch)
      {
        var a := schedule[i];
        ghost var s := Abs();
        assert schedule[i..][0] == a && schedule[i..][1..] == schedule[i + 1..];
        var can := CanMove(a);
        if can {
          NextKeeps(s, a, batch);
          match a
          case Submit => SubmitOne();
          case Fetch => FetchOne();
          case Complete(k) => CompleteOne(k);
          case Reap => ReapSome();
        }
        i := i + 1;
      }
    }

    method CanMove(a: Action) returns (can: bool)
      requires Valid()
      ensures can == Enabled(Abs(), a)
      ensures can == match a
        case Submit => todo != []
        case Fetch => sq.Queue() != []
        case Complete(i) => i < |inflight|
        case Reap => cq.Queue() != [] && |got| < n
    {
      match a
      case Submit => can := todo != [];
      case Fetch =>
        var e := sq.IsEmpty();
        can := !e;
      case Complete(i) => can := i < |inflight|;
      case Reap =>
        var e := cq.IsEmpty();
        can := !e && |got| < n;
    }
  }
}
