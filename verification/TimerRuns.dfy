/** What clients of the timer queue can rely on over every run of start, stop and tick. */
module TimerRuns {
  import opened TimerSpec

  ghost predicate Reachable(s: State, ops: seq<Op>) {
    AllWellFormed(ops) && s == ExecAll(INITIAL, ops)
  }

  lemma {:induction false} ReachableInv(s: State, ops: seq<Op>)
    requires Reachable(s, ops)
    ensures Inv(s)
  {
    InitialInv();
    RunKeeps(INITIAL, ops);
  }

  // A timer with a finite repeat count r fires at most r times while it is active and exactly r + 1 times
  // when it is gone without having been stopped. An infinite one stays.
  lemma {:induction false} ExactFirings(s: State, ops: seq<Op>, id: nat)
    requires Reachable(s, ops) && id < |s.started|
    ensures var r := s.started[id].repeat;
            && (r != 0xFFFF_FFFF && Active(s.active, id) ==> Count(s.log, id) <= r)
            && (!Active(s.active, id) && id !in s.stopped ==> r != 0xFFFF_FFFF && Count(s.log, id) == r + 1)
  {
    ReachableInv(s, ops);
    assert Active(s.active, id) || Spent(s, id);
    if Active(s.active, id) {
      var t :| t in s.active && t.id == id;
      assert Faithful(s, t);
    }
  }

  // No timeout comes before the requested time.
  lemma {:induction false} NeverEarly(s: State, ops: seq<Op>, i: nat)
    requires Reachable(s, ops) && i < |s.log|
    ensures var id := s.log[i].id;
            id < |s.started| && s.started[id].triggerAt <= s.log[i].at <= s.total
  {
    ReachableInv(s, ops);
  }

  // Two timeouts of one timer are at least its timeout apart.
  lemma {:induction false} PeriodKept(s: State, ops: seq<Op>, i: nat, j: nat)
    requires Reachable(s, ops) && i < j < |s.log| && s.log[i].id == s.log[j].id
    ensures s.log[i].id < |s.started| && s.log[i].at + s.started[s.log[i].id].timeout <= s.log[j].at
  {
    ReachableInv(s, ops);
  }

  function Ticks(ops: seq<Op>): nat {
    if ops == [] then 0 else Ticks(ops[..|ops| - 1]) + if ops[|ops| - 1].TickOp? then 1 else 0
  }

  ghost predicate StopsTimer(s: State, op: Op, id: nat) {
    && op.StopOp?
    && var k := MatchPos(s.active, op.actorId, op.timerId);
       k < |s.active| && s.active[k].id == id
  }

  // No operation of the run stops the timer.
  ghost predicate Undisturbed(s: State, ops: seq<Op>, id: nat)
    decreases |ops|
  {
    ops == [] || var n := |ops| - 1;
                 Undisturbed(s, ops[..n], id) && !StopsTimer(ExecAll(s, ops[..n]), ops[n], id)
  }

  lemma StartGoesBehind(s: State, actorId: nat, timerId: nat, timeout: nat, repeat: nat, k: nat)
    requires Sorted(s.active) && k < |s.active| && s.active[k].triggerAt < s.total
    ensures Start(s, actorId, timerId, timeout, repeat).active[k] == s.active[k]
  {
    assert InsertPos(s.active, s.total + timeout) > k;
  }

  lemma TickMovesForward(s: State, diff: int, alloc: bool, k: nat)
    requires Sorted(s.active) && 0 < k < |s.active| && s.active[k].triggerAt < s.total && s.active[0].timeout >= 0
    ensures k - 1 < |Tick(s, diff, alloc).active| && Tick(s, diff, alloc).active[k - 1] == s.active[k]
  {
    var t, rest := s.active[0], s.active[1..];
    var total := Later(s.total, diff);
    assert t.triggerAt <= s.active[k].triggerAt;
    assert rest[k - 1] == s.active[k] && Sorted(rest);
    assert InsertPos(rest, total + t.timeout) > k - 1;
  }

  // One operation never moves an overdue timer back, and a tick moves it forward.
  lemma OverdueStep(s: State, op: Op, k: nat) returns (k': nat)
    requires Inv(s) && k < |s.active| && s.active[k].triggerAt < s.total
    requires !StopsTimer(s, op, s.active[k].id) && !(op.TickOp? && k == 0)
    ensures s.total <= Exec(s, op).total
    ensures k' + (if op.TickOp? then 1 else 0) <= k && k' < |Exec(s, op).active|
    ensures Exec(s, op).active[k'] == s.active[k]
  {
    match op {
      case StartOp(a, t, timeout, repeat) =>
        k' := k;
        StartGoesBehind(s, a, t, timeout, repeat, k);
      case StopOp(a, t) =>
        k' := if MatchPos(s.active, a, t) < k then k - 1 else k;
      case TickOp(diff, alloc) =>
        k' := k - 1;
        TickMovesForward(s, diff, alloc, k);
    }
  }

  lemma OverdueFires(s: State, diff: int, alloc: bool)
    requires s.active != [] && s.active[0].triggerAt < s.total
    ensures Count(Tick(s, diff, alloc).log, s.active[0].id) == Count(s.log, s.active[0].id) + 1
  {
    CountExtend(s.log, Tick(s, diff, alloc).log[|s.log|], s.active[0].id);
  }

  lemma CountMonotone(s: State, op: Op, id: nat)
    ensures Count(Exec(s, op).log, id) >= Count(s.log, id)
  {
    var s' := Exec(s, op);
    if |s'.log| > |s.log| {
      CountExtend(s.log, s'.log[|s.log|], id);
    }
  }

  // An overdue timer is either still unfired and k - (ticks so far) places from the head, or has fired.
  ghost predicate OnItsWay(s: State, s': State, k: nat, ticks: nat, k': nat)
    requires k < |s.active|
  {
    var id := s.active[k].id;
    || Count(s'.log, id) > Count(s.log, id)
    || (&& k' + ticks <= k && k' < |s'.active| && s'.active[k'] == s.active[k]
        && s.total <= s'.total && Count(s'.log, id) == Count(s.log, id))
  }

  lemma OverdueExec(s: State, u: State, op: Op, k: nat, ticks: nat, k0: nat) returns (k': nat)
    requires Inv(u) && k < |s.active| && s.active[k].triggerAt < s.total && OnItsWay(s, u, k, ticks, k0)
    requires !StopsTimer(u, op, s.active[k].id)
    ensures OnItsWay(s, Exec(u, op), k, ticks + if op.TickOp? then 1 else 0, k')
  {
    var id := s.active[k].id;
    CountMonotone(u, op, id);
    k' := k0;
    if Count(u.log, id) == Count(s.log, id) {
      if op.TickOp? && k0 == 0 {
        OverdueFires(u, op.diff, op.alloc);
      } else {
        k' := OverdueStep(u, op, k0);
      }
    }
  }

  lemma {:induction false} OverduePosition(s: State, ops: seq<Op>, k: nat) returns (k': nat)
    requires Inv(s) && AllWellFormed(ops) && k < |s.active| && s.active[k].triggerAt < s.total
    requires Undisturbed(s, ops, s.active[k].id)
    ensures OnItsWay(s, ExecAll(s, ops), k, Ticks(ops), k')
    decreases |ops|
  {
    if ops == [] {
      k' := k;
    } else {
      var n, id := |ops| - 1, s.active[k].id;
      var init := ops[..n];
      k' := OverduePosition(s, init, k);
      RunKeeps(s, init);
      k' := OverdueExec(s, ExecAll(s, init), ops[n], k, Ticks(init), k');
    }
  }

  // Bounded response: an overdue timer at position k fires within k + 1 ticks unless it is stopped,
  // whatever is started, stopped and repeated meanwhile.
  lemma {:induction false} BoundedResponse(s: State, ops: seq<Op>, k: nat)
    requires Inv(s) && AllWellFormed(ops) && k < |s.active| && s.active[k].triggerAt < s.total
    requires Undisturbed(s, ops, s.active[k].id) && Ticks(ops) > k
    ensures Count(ExecAll(s, ops).log, s.active[k].id) > Count(s.log, s.active[k].id)
  {
    var k' := OverduePosition(s, ops, k);
  }

  // At place a, in front of timer t at place b, stands a timer that is due now and always will be; t itself
  // is due no earlier.
  ghost predicate Blocked(u: State, t: Timer, a: nat, b: nat) {
    && a < b < |u.active| && u.active[b] == t && u.total <= t.triggerAt
    && u.active[a].triggerAt == u.total && u.active[a].timeout == 0 && u.active[a].repeat == REPEAT_INFINITE
  }

  lemma BlockedStart(s: State, actorId: nat, timerId: nat, k: nat) returns (a: nat)
    requires Inv(s) && k < |s.active| && s.total <= s.active[k].triggerAt
    ensures Blocked(Start(s, actorId, timerId, 0, REPEAT_INFINITE), s.active[k], a, k + 1)
  {
    var e := Timer(|s.started|, actorId, timerId, 0, REPEAT_INFINITE, s.total);
    a := InsertPos(s.active, s.total);
    InsertAt(s.active, e);
    assert Insert(s.active, e)[a] == Spliced(s.active, e, a, a);
    assert Insert(s.active, e)[k + 1] == Spliced(s.active, e, a, k + 1);
  }

  // A timer in front of place b fires and goes where its next due time belongs; b stays behind a.
  lemma BlockedFire(u: State, t: Timer, a: nat, b: nat, diff: int, alloc: bool) returns (a': nat, b': nat)
    requires Inv(u) && Blocked(u, t, a, b) && diff <= 0
    ensures Blocked(Tick(u, diff, alloc), t, a', b')
  {
    hide Inv;
    SortedOf(u);
    var h, rest := u.active[0], u.active[1..];
    var h' := Rearmed(h, u.total);
    var p := InsertPos(rest, h'.triggerAt);
    assert h.triggerAt <= u.active[a].triggerAt == u.total;
    if h.repeat == 0 {
      a', b' := a - 1, b - 1;
    } else if a == 0 {
      assert rest[0] == u.active[1] && p == 0 && h' == h;
      a', b' := 0, b;
    } else {
      a', b' := if a - 1 < p then a - 1 else a, if b - 1 < p then b - 1 else b;
      InsertAt(rest, h');
      assert Insert(rest, h')[a'] == Spliced(rest, h', p, a') && Insert(rest, h')[b'] == Spliced(rest, h', p, b');
    }
  }

  lemma SortedOf(u: State)
    requires Inv(u)
    ensures Sorted(u.active) && DistinctIds(u.active)
  {
  }

  lemma BlockedTick(u: State, t: Timer, a: nat, b: nat, diff: int, alloc: bool) returns (a': nat, b': nat)
    requires Inv(u) && Blocked(u, t, a, b) && diff <= 0
    ensures Blocked(Tick(u, diff, alloc), t, a', b') && Count(Tick(u, diff, alloc).log, t.id) == Count(u.log, t.id)
  {
    hide Inv;
    SortedOf(u);
    a', b' := BlockedFire(u, t, a, b, diff, alloc);
    var h := u.active[0];
    assert h.triggerAt <= u.active[a].triggerAt && h.id != t.id;
    CountExtend(u.log, Firing(h.id, h.actorId, h.timerId, u.total, alloc), t.id);
  }

  ghost predicate Standstill(ops: seq<Op>) {
    forall i :: 0 <= i < |ops| ==> ops[i].TickOp? && ops[i].diff <= 0
  }

  // Any number of ticks on a standing clock, after a timer with timeout 0 that repeats for ever is started,
  // leaves every timer unfired that is not yet overdue.
  lemma {:induction false} Starved(s: State, k: nat, actorId: nat, timerId: nat, ticks: seq<Op>)
    returns (a: nat, b: nat)
    requires Inv(s) && k < |s.active| && s.total <= s.active[k].triggerAt && Standstill(ticks)
    ensures var ops, id := [StartOp(actorId, timerId, 0, REPEAT_INFINITE)] + ticks, s.active[k].id;
            && AllWellFormed(ops) && Undisturbed(s, ops, id) && Ticks(ops) == |ticks|
            && Blocked(ExecAll(s, ops), s.active[k], a, b)
            && Count(ExecAll(s, ops).log, id) == Count(s.log, id)
    decreases |ticks|
  {
    hide Inv, Tick, Insert, Blocked, MatchPos;
    var start := StartOp(actorId, timerId, 0, REPEAT_INFINITE);
    var ops := [start] + ticks;
    var n := |ticks|;
    if n == 0 {
      assert ops[..0] == [] && ops == [start];
      a := BlockedStart(s, actorId, timerId, k);
      b := k + 1;
      assert ExecAll(s, ops) == Exec(ExecAll(s, []), start);
    } else {
      var before := [start] + ticks[..n - 1];
      assert ops[..n] == before && ops[n] == ticks[n - 1];
      a, b := Starved(s, k, actorId, timerId, ticks[..n - 1]);
      RunKeeps(s, before);
      a, b := BlockedTick(ExecAll(s, before), s.active[k], a, b, ticks[n - 1].diff, ticks[n - 1].alloc);
    }
  }

  // Whatever is started, stopped and repeated, more than n ticks without a stop of timer k make it fire.
  ghost predicate FiresWithin(s: State, k: nat, n: nat)
    requires k < |s.active|
  {
    forall ops: seq<Op> :: AllWellFormed(ops) && Undisturbed(s, ops, s.active[k].id) && Ticks(ops) > n ==>
      Count(ExecAll(s, ops).log, s.active[k].id) > Count(s.log, s.active[k].id)
  }

  lemma {:induction false} StarvingRun(s: State, k: nat, n: nat) returns (ops: seq<Op>)
    requires Inv(s) && k < |s.active| && s.total <= s.active[k].triggerAt
    ensures AllWellFormed(ops) && Undisturbed(s, ops, s.active[k].id) && Ticks(ops) == n
    ensures Count(ExecAll(s, ops).log, s.active[k].id) == Count(s.log, s.active[k].id)
  {
    hide Inv, ExecAll, Undisturbed, Ticks, Count, Blocked, AllWellFormed;
    var ticks := seq(n, _ => TickOp(0, true));
    var a, b := Starved(s, k, 0, 0, ticks);
    ops := [StartOp(0, 0, 0, REPEAT_INFINITE)] + ticks;
  }

  // Being overdue is the exact condition: a timer that is only just due, or not yet, has no bound at all.
  lemma {:induction false} BoundedExactlyWhenOverdue(s: State, k: nat, n: nat)
    requires Inv(s) && k < |s.active| && n >= k
    ensures FiresWithin(s, k, n) <==> s.active[k].triggerAt < s.total
  {
    hide Inv, ExecAll, Undisturbed, Ticks, Count, AllWellFormed;
    if s.active[k].triggerAt < s.total {
      forall ops: seq<Op> | AllWellFormed(ops) && Undisturbed(s, ops, s.active[k].id) && Ticks(ops) > n
        ensures Count(ExecAll(s, ops).log, s.active[k].id) > Count(s.log, s.active[k].id)
      {
        BoundedResponse(s, ops, k);
      }
    } else {
      var ops := StarvingRun(s, k, n + 1);
    }
  }

  function Lone(t: Timer): State { State([t], 0, [], [t], {}) }

  lemma LoneReached(t: Timer)
    requires t == Timer(0, t.actorId, t.timerId, 0, 0, 0)
    ensures Exec(INITIAL, StartOp(t.actorId, t.timerId, 0, 0)) == Lone(t) && Inv(Lone(t))
  {
    hide Inv;
    assert Insert([], t) == [t];
    InitialInv();
    ExecKeeps(INITIAL, StartOp(t.actorId, t.timerId, 0, 0));
  }

  // A timer started with timeout 0 is due at once; before the clock moves, a second one passes it for ever.
  lemma {:induction false} Standoff(t: Timer, other: nat, n: nat)
    requires t == Timer(0, t.actorId, t.timerId, 0, 0, 0)
    ensures var s := Exec(INITIAL, StartOp(t.actorId, t.timerId, 0, 0));
            var ops := [StartOp(t.actorId, other, 0, REPEAT_INFINITE)] + seq(n, _ => TickOp(0, true));
            Count(ExecAll(s, ops).log, 0) == 0
  {
    hide Inv, ExecAll, Undisturbed, Ticks, Exec;
    LoneReached(t);
    var a, b := Starved(Lone(t), 0, t.actorId, other, seq(n, _ => TickOp(0, true)));
  }
}
