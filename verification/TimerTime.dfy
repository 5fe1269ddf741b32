/** The timers in the time that callers pass in: the clock is the sum of the ticks, and nothing else. */
module TimerTime {
  import opened TimerSpec
  import opened TimerRuns

  // The time the ticks of a run add up to. Ticks that run backwards count for nothing.
  function Elapsed(ops: seq<Op>): nat {
    if ops == [] then 0
    else
      var op := ops[|ops| - 1];
      Elapsed(ops[..|ops| - 1]) + if op.TickOp? && op.diff > 0 then op.diff else 0
  }

  lemma {:induction false} ClockIsElapsed(s: State, ops: seq<Op>)
    ensures ExecAll(s, ops).total == s.total + Elapsed(ops)
    decreases |ops|
  {
    if ops != [] { ClockIsElapsed(s, ops[..|ops| - 1]); }
  }

  // Nothing that was started, fired or stopped is forgotten or changed.
  lemma {:induction false} HistoryGrows(s: State, ops: seq<Op>)
    ensures var s' := ExecAll(s, ops); s.started <= s'.started && s.log <= s'.log && s.stopped <= s'.stopped
    decreases |ops|
  {
    if ops != [] { HistoryGrows(s, ops[..|ops| - 1]); }
  }

  // A start request is kept as it was made, with the next free number.
  lemma {:induction false} RequestRecorded(s: State, actorId: nat, timerId: nat, timeout: nat, repeat: nat, ops: seq<Op>)
    ensures var id, s' := |s.started|, ExecAll(Start(s, actorId, timerId, timeout, repeat), ops);
            && id < |s'.started|
            && s'.started[id] == Timer(id, actorId, timerId, timeout, repeat, s.total + timeout)
  {
    HistoryGrows(Start(s, actorId, timerId, timeout, repeat), ops);
  }

  // Every timeout goes to the actor and names the timer of its start request.
  lemma {:induction false} Addressed(s: State, ops: seq<Op>, i: nat)
    requires Reachable(s, ops) && i < |s.log|
    ensures var e := s.log[i];
            && e.id < |s.started|
            && e.actorId == s.started[e.id].actorId && e.timerId == s.started[e.id].timerId
  {
    ReachableInv(s, ops);
  }

  // What fired more often fired in the part of the log that was added.
  lemma {:induction false} FiredSince(log: seq<Firing>, log': seq<Firing>, id: nat) returns (j: nat)
    requires log <= log' && Count(log', id) > Count(log, id)
    ensures |log| <= j < |log'| && log'[j].id == id
    decreases |log'|
  {
    assert |log| == |log'| ==> log == log';
    var n := |log'| - 1;
    if log'[n].id == id {
      j := n;
    } else {
      j := FiredSince(log, log'[..n], id);
    }
  }

  // Without a firing the due time stands.
  lemma {:induction false} DueStands(log: seq<Firing>, log': seq<Firing>, id: nat, first: int, timeout: nat)
    requires log <= log' && Count(log', id) == Count(log, id)
    ensures DueAt(log', id, first, timeout) == DueAt(log, id, first, timeout)
    decreases |log'|
  {
    if |log| == |log'| {
      assert log == log';
    } else {
      var n := |log'| - 1;
      CountGrows(log, log'[..n], id);
      DueStands(log, log'[..n], id, first, timeout);
    }
  }

  lemma {:induction false} CountGrows(log: seq<Firing>, log': seq<Firing>, id: nat)
    requires log <= log'
    ensures Count(log, id) <= Count(log', id)
    decreases |log'|
  {
    if |log| == |log'| {
      assert log == log';
    } else {
      CountGrows(log, log'[..|log'| - 1], id);
    }
  }

  lemma UnknownUnfired(s: State)
    requires Inv(s)
    ensures Count(s.log, |s.started|) == 0
  {
    assert forall i :: 0 <= i < |s.log| ==> s.log[i].id < |s.started|;
    Unseen(s.log, |s.started|, 0, 0);
  }

  // A timer does not fire before ticks summing to its timeout have passed since it was started.
  lemma {:induction false} NotBeforeTimeout(s: State, actorId: nat, timerId: nat, timeout: nat, repeat: nat, ops: seq<Op>)
    requires Inv(s) && repeat <= 0xFFFF_FFFF && AllWellFormed(ops)
    ensures Count(ExecAll(Start(s, actorId, timerId, timeout, repeat), ops).log, |s.started|) > 0 ==>
              Elapsed(ops) >= timeout
  {
    var u, id := Start(s, actorId, timerId, timeout, repeat), |s.started|;
    var s' := ExecAll(u, ops);
    StartKeeps(s, actorId, timerId, timeout, repeat);
    RunKeeps(u, ops);
    ClockIsElapsed(u, ops);
    HistoryGrows(u, ops);
    RequestRecorded(s, actorId, timerId, timeout, repeat, ops);
    UnknownUnfired(s);
    hide Sorted, Faithful, DistinctIds, Active, Spent, Start, ExecAll;
    if Count(s'.log, id) > 0 {
      var j := FiredSince(s.log, s'.log, id);
      assert s'.started[id].triggerAt <= s'.log[j].at <= s'.total;
    }
  }

  // A tick fires a timer exactly when it is at the head and due.
  lemma TickFires(s: State, diff: int, alloc: bool, id: nat)
    requires Count(Tick(s, diff, alloc).log, id) != Count(s.log, id)
    ensures s.active != [] && s.active[0].id == id && s.active[0].triggerAt <= Tick(s, diff, alloc).total
    ensures var t := s.active[0];
            Tick(s, diff, alloc).log == s.log + [Firing(id, t.actorId, t.timerId, Tick(s, diff, alloc).total, alloc)]
  {
    var t, total := s.active[0], Later(s.total, diff);
    CountExtend(s.log, Firing(t.id, t.actorId, t.timerId, total, alloc), id);
  }

  // Ticks summing to its timeout lie between two timeouts of a timer.
  lemma {:induction false} NotAgainBeforeTimeout(s: State, diff: int, alloc: bool, id: nat, ops: seq<Op>)
    requires Inv(s) && AllWellFormed(ops) && id < |s.started|
    requires Count(Tick(s, diff, alloc).log, id) > Count(s.log, id)
    ensures Count(ExecAll(Tick(s, diff, alloc), ops).log, id) > Count(Tick(s, diff, alloc).log, id) ==>
              Elapsed(ops) >= s.started[id].timeout
  {
    var u := Tick(s, diff, alloc);
    var s' := ExecAll(u, ops);
    TickFires(s, diff, alloc, id);
    TickKeeps(s, diff, alloc);
    RunKeeps(u, ops);
    ClockIsElapsed(u, ops);
    HistoryGrows(u, ops);
    assert u.started == s.started;
    hide Sorted, Faithful, DistinctIds, Active, Spent, Tick, ExecAll;
    if Count(s'.log, id) > Count(u.log, id) {
      var n := |s.log|;
      var j := FiredSince(u.log, s'.log, id);
      assert s'.log[n] == u.log[n];
      assert s'.log[n].at + s'.started[id].timeout <= s'.log[j].at <= s'.total;
    }
  }

  lemma {:induction false} NotStopped(s: State, ops: seq<Op>, id: nat)
    requires Undisturbed(s, ops, id) && id !in s.stopped
    ensures id !in ExecAll(s, ops).stopped
    decreases |ops|
  {
    if ops != [] { NotStopped(s, ops[..|ops| - 1], id); }
  }

  ghost predicate OverdueAt(s: State, id: nat, k: nat) {
    k < |s.active| && s.active[k].id == id && s.active[k].triggerAt < s.total
  }

  // A timer due within T that is not stopped has fired or is overdue after ticks summing to more than T.
  lemma {:induction false} OverdueAfter(s: State, t: Timer, T: nat, ops: seq<Op>) returns (k: nat)
    requires Inv(s) && t in s.active && t.triggerAt <= s.total + T
    requires AllWellFormed(ops) && Elapsed(ops) > T && Undisturbed(s, ops, t.id)
    ensures var s' := ExecAll(s, ops); Count(s'.log, t.id) > Count(s.log, t.id) || OverdueAt(s', t.id, k)
  {
    var s', id := ExecAll(s, ops), t.id;
    assert Faithful(s, t);
    RunKeeps(s, ops);
    ClockIsElapsed(s, ops);
    HistoryGrows(s, ops);
    NotStopped(s, ops, id);
    CountGrows(s.log, s'.log, id);
    hide Sorted, DistinctIds, ExecAll, Undisturbed, Punctual;
    k := 0;
    if Count(s'.log, id) == Count(s.log, id) {
      DueStands(s.log, s'.log, id, s.started[id].triggerAt, s.started[id].timeout);
      StillActive(s, s', t);
      var x :| x in s'.active && x.id == id;
      assert Faithful(s', x);
      k :| 0 <= k < |s'.active| && s'.active[k] == x;
    }
  }

  // What has neither fired nor been stopped is still there.
  lemma StillActive(s: State, s': State, t: Timer)
    requires Inv(s) && Inv(s') && t in s.active && s.started <= s'.started
    requires t.id !in s'.stopped && Count(s'.log, t.id) == Count(s.log, t.id)
    ensures Active(s'.active, t.id)
  {
    hide Sorted, DistinctIds, Punctual;
    assert Faithful(s, t);
    assert s'.started[t.id] == s.started[t.id];
    assert Active(s'.active, t.id) || Spent(s', t.id);
  }

  lemma {:induction false} FiresAfter(s: State, t: Timer, T: nat, ops: seq<Op>, more: seq<Op>)
    requires Inv(s) && t in s.active && t.triggerAt <= s.total + T
    requires AllWellFormed(ops) && Elapsed(ops) > T && Undisturbed(s, ops, t.id)
    requires var u := ExecAll(s, ops);
             AllWellFormed(more) && Undisturbed(u, more, t.id) && Ticks(more) >= |u.active|
    ensures Count(ExecAll(ExecAll(s, ops), more).log, t.id) > Count(s.log, t.id)
  {
    hide Inv, ExecAll, Undisturbed, Elapsed, Ticks, Count, AllWellFormed;
    var u := ExecAll(s, ops);
    var k := OverdueAfter(s, t, T, ops);
    RunKeeps(s, ops);
    HistoryGrows(u, more);
    CountGrows(u.log, ExecAll(u, more).log, t.id);
    HistoryGrows(s, ops);
    CountGrows(s.log, u.log, t.id);
    if OverdueAt(u, t.id, k) {
      BoundedResponse(u, more, k);
    }
  }

  // A started timer that is not stopped fires: after ticks that sum to more than its timeout, within as many
  // further ticks as there are timers, whatever else is started, stopped and repeated.
  lemma {:induction false} FiresOnceElapsed(s: State, actorId: nat, timerId: nat, timeout: nat, repeat: nat, ops: seq<Op>, more: seq<Op>)
    requires Inv(s) && repeat <= 0xFFFF_FFFF && AllWellFormed(ops) && AllWellFormed(more) && Elapsed(ops) > timeout
    requires var u := Start(s, actorId, timerId, timeout, repeat);
             && Undisturbed(u, ops, |s.started|) && Undisturbed(ExecAll(u, ops), more, |s.started|)
             && Ticks(more) >= |ExecAll(u, ops).active|
    ensures Count(ExecAll(ExecAll(Start(s, actorId, timerId, timeout, repeat), ops), more).log, |s.started|) > 0
  {
    var u := Start(s, actorId, timerId, timeout, repeat);
    var t := Timer(|s.started|, actorId, timerId, timeout, repeat, s.total + timeout);
    StartKeeps(s, actorId, timerId, timeout, repeat);
    InsertMembers(s.active, t);
    hide Inv, ExecAll, Undisturbed, Elapsed, Ticks, Count, AllWellFormed;
    FiresAfter(u, t, timeout, ops, more);
  }

  // And it fires again, counted from the tick that made it fire last, until its repeats are used up.
  lemma {:induction false} FiresAgainOnceElapsed(s: State, diff: int, alloc: bool, id: nat, ops: seq<Op>, more: seq<Op>)
    requires Inv(s) && id < |s.started| && AllWellFormed(ops) && AllWellFormed(more)
    requires Elapsed(ops) > s.started[id].timeout
    requires Count(Tick(s, diff, alloc).log, id) > Count(s.log, id)
    requires s.started[id].repeat == 0xFFFF_FFFF || Count(s.log, id) < s.started[id].repeat
    requires var u := Tick(s, diff, alloc);
             && Undisturbed(u, ops, id) && Undisturbed(ExecAll(u, ops), more, id)
             && Ticks(more) >= |ExecAll(u, ops).active|
    ensures var u := Tick(s, diff, alloc); Count(ExecAll(ExecAll(u, ops), more).log, id) > Count(u.log, id)
  {
    hide Inv, ExecAll, Tick, Undisturbed, Elapsed, Ticks, Count, AllWellFormed;
    var t := RearmedByTick(s, diff, alloc, id);
    TickKeeps(s, diff, alloc);
    FiresAfter(Tick(s, diff, alloc), t, s.started[id].timeout, ops, more);
  }

  // A timer with repeats left is queued again when it fires.
  lemma RearmedByTick(s: State, diff: int, alloc: bool, id: nat) returns (t: Timer)
    requires Inv(s) && id < |s.started| && Count(Tick(s, diff, alloc).log, id) > Count(s.log, id)
    requires s.started[id].repeat == 0xFFFF_FFFF || Count(s.log, id) < s.started[id].repeat
    ensures var u := Tick(s, diff, alloc);
            t in u.active && t.id == id && t.triggerAt <= u.total + s.started[id].timeout
  {
    hide Sorted, DistinctIds, Punctual, Insert, Spent;
    var u, head := Tick(s, diff, alloc), s.active[0];
    TickFires(s, diff, alloc, id);
    assert Faithful(s, head);
    t := Rearmed(head, u.total);
    InsertMembers(s.active[1..], t);
  }

  // ----- stopping -----

  ghost predicate FirstMatch(s: State, actorId: nat, timerId: nat, k: nat) {
    && k < |s.active| && s.active[k].actorId == actorId && s.active[k].timerId == timerId
    && forall i :: 0 <= i < k ==> s.active[i].actorId != actorId || s.active[i].timerId != timerId
  }

  // A stop takes the first match off the list and leaves the others in their order.
  lemma StopRemoves(s: State, actorId: nat, timerId: nat, k: nat)
    requires Inv(s) && FirstMatch(s, actorId, timerId, k)
    ensures var s' := Stop(s, actorId, timerId);
            && !Active(s'.active, s.active[k].id) && s.active[k].id in s'.stopped
            && |s'.active| == |s.active| - 1
            && (forall i :: 0 <= i < k ==> s'.active[i] == s.active[i])
            && (forall i :: k <= i < |s'.active| ==> s'.active[i] == s.active[i + 1])
  {
    MatchPosIs(s.active, actorId, timerId, k);
    WithoutMembers(s.active, k);
  }

  lemma {:induction false} StoppedStaysSilent(s: State, ops: seq<Op>, id: nat)
    requires Inv(s) && id in s.stopped && AllWellFormed(ops)
    ensures Count(ExecAll(s, ops).log, id) == Count(s.log, id)
    decreases |ops|
  {
    if ops != [] {
      var init, op := ops[..|ops| - 1], ops[|ops| - 1];
      var u := ExecAll(s, init);
      StoppedStaysSilent(s, init, id);
      RunKeeps(s, init);
      HistoryGrows(s, init);
      if op.TickOp? && u.active != [] {
        var t := u.active[0];
        assert Faithful(u, t);
        CountExtend(u.log, Firing(t.id, t.actorId, t.timerId, Later(u.total, op.diff), op.alloc), id);
      }
    }
  }

  // A stopped timer never fires again, whatever follows.
  lemma {:induction false} StoppedForGood(s: State, actorId: nat, timerId: nat, k: nat, ops: seq<Op>)
    requires Inv(s) && FirstMatch(s, actorId, timerId, k) && AllWellFormed(ops)
    ensures var id := s.active[k].id;
            Count(ExecAll(Stop(s, actorId, timerId), ops).log, id) == Count(s.log, id)
  {
    StopRemoves(s, actorId, timerId, k);
    StopKeeps(s, actorId, timerId);
    StoppedStaysSilent(Stop(s, actorId, timerId), ops, s.active[k].id);
    assert Stop(s, actorId, timerId).log == s.log;
  }
}
