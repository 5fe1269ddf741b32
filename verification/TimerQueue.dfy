/** The linked lists of u_timer.c: active timers by due time, and freed nodes kept for reuse. */
module TimerQueue {
  import opened TimerSpec

  class UTimer {
    var next: UTimer?
    var actorId: nat
    var timerId: nat
    var timeout: nat
    var repeat: nat
    var triggerAt: int
    ghost var id: nat

    constructor ()
      ensures next == null
    {
      next, actorId, timerId, timeout, repeat, triggerAt, id := null, 0, 0, 0, 0, 0, 0;
    }

    ghost function Value(): Timer
      reads this
    {
      Timer(id, actorId, timerId, timeout, repeat, triggerAt)
    }

    // The field assignments of U_TimerStartTimerRequest
    method Set(actorId: nat, timerId: nat, timeout: nat, repeat: nat, triggerAt: int, ghost id: nat)
      modifies this
      ensures Value() == Timer(id, actorId, timerId, timeout, repeat, triggerAt) && next == old(next)
    {
      this.actorId, this.timerId, this.timeout, this.repeat, this.triggerAt := actorId, timerId, timeout, repeat, triggerAt;
      this.id := id;
    }

    // The field assignments of U_TimerTick
    method Rearm(total: int)
      requires repeat != 0
      modifies this
      ensures Value() == Rearmed(old(Value()), total) && next == old(next)
    {
      if repeat != REPEAT_INFINITE {
        repeat := repeat - 1;
      }
      triggerAt := total + timeout;
    }
  }

  ghost function NodeAt(s: seq<UTimer>, i: nat): UTimer? {
    if i < |s| then s[i] else null
  }

  // The list that starts at head consists of exactly these nodes.
  ghost predicate Linked(head: UTimer?, s: seq<UTimer>)
    reads s
  {
    head == NodeAt(s, 0) && forall i {:trigger s[i].next} :: 0 <= i < |s| ==> s[i].next == NodeAt(s, i + 1)
  }

  lemma LinkedTail(head: UTimer?, s: seq<UTimer>)
    requires s != [] && Linked(head, s)
    ensures head == s[0] && Linked(s[0].next, s[1..])
  {
    assert s[0].next == NodeAt(s, 1);
    forall i | 0 <= i < |s| - 1 ensures s[1..][i].next == NodeAt(s[1..], i + 1) {
      assert s[i + 1].next == NodeAt(s, i + 2);
    }
  }

  // A node in front of a list.
  lemma LinkedCons(x: UTimer, s: seq<UTimer>)
    requires Linked(x.next, s)
    ensures Linked(x, [x] + s)
  {
    var r := [x] + s;
    forall i | 0 <= i < |r| ensures r[i].next == NodeAt(r, i + 1) {
      if i > 0 { assert s[i - 1].next == NodeAt(s, i); }
    }
  }

  ghost predicate NoShared(a: seq<UTimer>, b: seq<UTimer>) {
    forall i, j :: 0 <= i < |a| && 0 <= j < |b| ==> a[i] != b[j]
  }

  ghost function Members(s: seq<UTimer>): (r: set<UTimer>)
  {
    set x | x in s
  }

  ghost predicate NoDuplicates(s: seq<UTimer>) {
    forall i, j :: 0 <= i < j < |s| ==> s[i] != s[j]
  }

  // The nodes hold these timers.
  ghost predicate Holds(s: seq<UTimer>, v: seq<Timer>)
    reads s
  {
    |s| == |v| && forall i :: 0 <= i < |s| ==> s[i].Value() == v[i]
  }

  lemma HoldsInsert(s: seq<UTimer>, v: seq<Timer>, t: UTimer, k: nat)
    requires Holds(s, v) && k <= |s|
    ensures Holds(s[..k] + [t] + s[k..], v[..k] + [t.Value()] + v[k..])
  {
  }

  lemma HoldsWithout(s: seq<UTimer>, v: seq<Timer>, k: nat)
    requires Holds(s, v) && k < |s|
    ensures Holds(s[..k] + s[k + 1..], v[..k] + v[k + 1..])
  {
  }

  // Linking t in at place k: the only other node that changes is the one before it.
  lemma LinkedInsert(s: seq<UTimer>, t: UTimer, k: nat, head: UTimer?)
    requires k <= |s| && t.next == NodeAt(s, k) && (k > 0 ==> s[k - 1].next == t)
    requires forall i :: 0 <= i < |s| && i + 1 != k ==> s[i].next == NodeAt(s, i + 1)
    requires head == if k == 0 then t else NodeAt(s, 0)
    ensures Linked(head, s[..k] + [t] + s[k..])
  {
    var r := s[..k] + [t] + s[k..];
    forall i | 0 <= i < |r| ensures r[i].next == NodeAt(r, i + 1) {
      if i < k {
        assert r[i] == s[i];
      } else if i > k {
        assert r[i] == s[i - 1];
      }
    }
  }

  // Unlinking the node at place k: the only other node that changes is the one before it.
  lemma LinkedRemove(s: seq<UTimer>, k: nat, head: UTimer?)
    requires k < |s| && (k > 0 ==> s[k - 1].next == NodeAt(s, k + 1))
    requires forall i :: 0 <= i < |s| && i != k && i + 1 != k ==> s[i].next == NodeAt(s, i + 1)
    requires head == if k == 0 then NodeAt(s, 1) else NodeAt(s, 0)
    ensures Linked(head, s[..k] + s[k + 1..])
  {
    var r := s[..k] + s[k + 1..];
    forall i | 0 <= i < |r| ensures r[i].next == NodeAt(r, i + 1) {
      if i < k {
        assert r[i] == s[i];
      } else {
        assert r[i] == s[i + 1];
      }
    }
  }

  // A node that moves from one list to the front of the other.
  lemma MovedApart(s: seq<UTimer>, f: seq<UTimer>, k: nat)
    requires NoShared(s, f) && NoDuplicates(s) && k < |s|
    ensures NoShared(s[..k] + s[k + 1..], [s[k]] + f) && s[k] !in f
    ensures forall j :: 0 <= j < |f| ==> f[j] !in s
  {
    var r, g := s[..k] + s[k + 1..], [s[k]] + f;
    assert forall i :: 0 <= i < |r| ==> r[i] == s[if i < k then i else i + 1];
    assert forall j :: 1 <= j < |g| ==> g[j] == f[j - 1];
  }

  lemma NodesRemoved(s: seq<UTimer>, k: nat)
    requires k < |s| && NoDuplicates(s)
    ensures var r := s[..k] + s[k + 1..];
            && NoDuplicates(r) && s[k] !in r
            && Members(s) == Members(r) + {s[k]}
  {
    var r := s[..k] + s[k + 1..];
    assert forall i :: 0 <= i < |r| ==> r[i] == s[if i < k then i else i + 1];
    forall x | x in s ensures x == s[k] || x in r {
      var i :| 0 <= i < |s| && s[i] == x;
      assert i != k ==> r[if i < k then i else i - 1] == x;
    }
  }

  lemma NodesInserted(s: seq<UTimer>, t: UTimer, k: nat)
    requires k <= |s| && NoDuplicates(s) && t !in s
    ensures var r := s[..k] + [t] + s[k..];
            && NoDuplicates(r)
            && Members(r) == Members(s) + {t}
  {
    assert s == s[..k] + s[k..];
  }

  lemma StartIs(s: State, s': State, t: Timer)
    requires s' == State(Insert(s.active, t), s.total, s.log, s.started + [t], s.stopped)
    requires t.id == |s.started| && t.triggerAt == s.total + t.timeout
    ensures s' == Start(s, t.actorId, t.timerId, t.timeout, t.repeat)
  {
  }

  lemma TickIs(s: State, s': State, diff: int, alloc: bool)
    requires s.active != [] && s.active[0].triggerAt <= Later(s.total, diff)
    requires var t, total := s.active[0], Later(s.total, diff);
             s' == State(if t.repeat != 0 then Insert(s.active[1..], Rearmed(t, total)) else s.active[1..], total,
                         s.log + [Firing(t.id, t.actorId, t.timerId, total, alloc)], s.started, s.stopped)
    ensures s' == TimerSpec.Tick(s, diff, alloc)
  {
  }

  class TimerQueue {
    var activeTimers: UTimer?
    var freeTimers: UTimer?
    var total: int
    ghost var active: seq<UTimer>
    ghost var free: seq<UTimer>
    ghost var nodes: set<UTimer>       // every node obtained from U_Alloc
    ghost var released: seq<UTimer>    // every node given to U_Free
    ghost var timers: seq<Timer>       // what the active nodes hold
    ghost var log: seq<Firing>
    ghost var started: seq<Timer>
    ghost var stopped: set<nat>

    // Both lists are acyclic, they share no node, and together they hold every node ever allocated.
    ghost predicate Heap()
      reads this, active, free
    {
      && Linked(activeTimers, active) && Linked(freeTimers, free) && Holds(active, timers)
      && NoDuplicates(active) && NoDuplicates(free) && NoShared(active, free)
      && nodes == Members(active) + Members(free)
    }

    ghost function Model(): State
      reads this
    {
      State(timers, total, log, started, stopped)
    }

    // U_TimerInit
    constructor ()
      ensures Heap() && Model() == INITIAL && nodes == {} && released == []
    {
      activeTimers, freeTimers, total := null, null, 0;
      active, free, nodes, released, timers, log, started, stopped := [], [], {}, [], [], [], [], {};
    }

    // The search of U_TimerInsertTimer; `prev` stands for the pointer to the link to be changed.
    method FindInsertPoint(triggerAt: int) returns (prev: UTimer?, cur: UTimer?, ghost k: nat)
      requires Linked(activeTimers, active) && Holds(active, timers)
      ensures k == InsertPos(timers, triggerAt)
      ensures cur == NodeAt(active, k) && prev == if k == 0 then null else active[k - 1]
    {
      k := 0;
      prev, cur := null, activeTimers;
      while cur != null && !(triggerAt <= cur.triggerAt)
        invariant k <= |active| && cur == NodeAt(active, k)
        invariant prev == (if k == 0 then null else active[k - 1])
        invariant forall i :: 0 <= i < k ==> timers[i].triggerAt < triggerAt
        decreases |active| - k
      {
        assert active[k].Value() == timers[k] && active[k].next == NodeAt(active, k + 1);
        prev, cur, k := cur, cur.next, k + 1;
      }
      assert k < |active| ==> active[k].Value() == timers[k];
      InsertPosIs(timers, triggerAt, k);
    }

    // U_TimerInsertTimer
    method InsertTimer(tmr: UTimer)
      requires Linked(activeTimers, active) && Holds(active, timers) && NoDuplicates(active) && tmr !in active
      modifies this`activeTimers, this`active, this`timers, tmr`next, active`next
      ensures Linked(activeTimers, active) && Holds(active, timers) && NoDuplicates(active)
      ensures Members(active) == Members(old(active)) + {tmr}
      ensures timers == Insert(old(timers), tmr.Value())
    {
      ghost var s, v := active, timers;
      var prev, cur, k := FindInsertPoint(tmr.triggerAt);
      tmr.next := cur;
      if prev == null {
        activeTimers := tmr;
      } else {
        prev.next := tmr;
      }
      active, timers := s[..k] + [tmr] + s[k..], v[..k] + [tmr.Value()] + v[k..];
      LinkedInsert(s, tmr, k, activeTimers);
      NodesInserted(s, tmr, k);
      HoldsInsert(s, v, tmr, k);
    }

    // The search of U_TimerReleaseTimer.
    method FindTimer(actorId: nat, timerId: nat) returns (prev: UTimer?, cur: UTimer?, ghost k: nat)
      requires Linked(activeTimers, active) && Holds(active, timers)
      ensures k == MatchPos(timers, actorId, timerId)
      ensures cur == NodeAt(active, k) && prev == if k == 0 then null else active[k - 1]
    {
      k := 0;
      prev, cur := null, activeTimers;
      while cur != null && !(cur.actorId == actorId && cur.timerId == timerId)
        invariant k <= |active| && cur == NodeAt(active, k)
        invariant prev == (if k == 0 then null else active[k - 1])
        invariant forall i :: 0 <= i < k ==> !(timers[i].actorId == actorId && timers[i].timerId == timerId)
        decreases |active| - k
      {
        assert active[k].Value() == timers[k] && active[k].next == NodeAt(active, k + 1);
        prev, cur, k := cur, cur.next, k + 1;
      }
      assert k < |active| ==> active[k].Value() == timers[k];
      MatchPosIs(timers, actorId, timerId, k);
    }

    // U_TimerReleaseTimer takes the node off the active list.
    method Unlink(prev: UTimer?, cur: UTimer, ghost k: nat)
      requires Linked(activeTimers, active) && Holds(active, timers) && NoDuplicates(active)
      requires k < |active| && cur == active[k] && prev == if k == 0 then null else active[k - 1]
      modifies this`activeTimers, this`active, this`timers, active`next
      ensures Linked(activeTimers, active) && Holds(active, timers) && NoDuplicates(active)
      ensures active == old(active)[..k] + old(active)[k + 1..] && timers == Without(old(timers), k)
      ensures Members(old(active)) == Members(active) + {cur} && cur !in active
    {
      ghost var s, v := active, timers;
      assert s[k].next == NodeAt(s, k + 1);
      if prev == null {
        activeTimers := cur.next;
      } else {
        prev.next := cur.next;
      }
      active, timers := s[..k] + s[k + 1..], v[..k] + v[k + 1..];
      LinkedRemove(s, k, activeTimers);
      NodesRemoved(s, k);
      HoldsWithout(s, v, k);
    }

    // Pushing a node that is in neither list onto the free list.
    method PushFree(tmr: UTimer)
      requires Linked(freeTimers, free) && NoDuplicates(free) && tmr !in free
      modifies this`freeTimers, this`free, tmr`next
      ensures Linked(freeTimers, free) && NoDuplicates(free)
      ensures free == [tmr] + old(free) && Members(free) == Members(old(free)) + {tmr}
    {
      tmr.next := freeTimers;
      LinkedCons(tmr, free);
      freeTimers := tmr;
      free := [tmr] + free;
    }

    // U_TimerReleaseTimer
    method ReleaseTimer(actorId: nat, timerId: nat) returns (found: bool)
      requires Heap()
      modifies this`activeTimers, this`freeTimers, this`active, this`free, this`timers, active`next
      ensures Heap()
      ensures var k := MatchPos(old(timers), actorId, timerId);
              if k < |old(timers)| then
                && found && active == old(active)[..k] + old(active)[k + 1..] && free == [old(active)[k]] + old(free)
                && timers == Without(old(timers), k)
              else !found && active == old(active) && free == old(free) && timers == old(timers)
    {
      var prev, cur, k := FindTimer(actorId, timerId);
      found := cur != null;
      if cur != null {
        MovedApart(active, free, k);
        Unlink(prev, cur, k);
        assert Linked(freeTimers, free);
        PushFree(cur);
        assert Linked(activeTimers, active) && Holds(active, timers);
      }
    }

    // The node of U_TimerStartTimerRequest: reused from the free list or allocated.
    method TakeNode() returns (tmr: UTimer)
      requires Heap()
      modifies this`freeTimers, this`free, this`nodes
      ensures InHand(tmr) && nodes == old(nodes) + {tmr}
      ensures if old(free) == [] then fresh(tmr) else tmr == old(free)[0]
    {
      if freeTimers != null {
        LinkedTail(freeTimers, free);
        NodesRemoved(free, 0);
        tmr := freeTimers;
        freeTimers := tmr.next;
        assert free[..0] + free[1..] == free[1..];
        free := free[1..];
      } else {
        tmr := new UTimer();
        nodes := nodes + {tmr};
      }
    }

    // Between the two lists there is one node in hand.
    ghost predicate InHand(tmr: UTimer)
      reads this, active, free
    {
      && Linked(activeTimers, active) && Linked(freeTimers, free) && Holds(active, timers)
      && NoDuplicates(active) && NoDuplicates(free) && NoShared(active, free)
      && nodes == Members(active) + Members(free) + {tmr}
      && tmr !in active && tmr !in free
    }

    // The active list gained a node that was not free.
    lemma StillFree(s: seq<UTimer>, tmr: UTimer)
      requires NoShared(s, free) && tmr !in free && Members(active) == Members(s) + {tmr}
      ensures NoShared(active, free)
    {
      forall i, j | 0 <= i < |active| && 0 <= j < |free| ensures active[i] != free[j] {
        assert active[i] in Members(active) && free[j] in free;
      }
    }

    method Enqueue(tmr: UTimer)
      requires InHand(tmr)
      modifies this`activeTimers, this`active, this`timers, tmr`next, active`next
      ensures Heap() && timers == Insert(old(timers), tmr.Value())
    {
      ghost var s := active;
      InsertTimer(tmr);
      assert Linked(freeTimers, free);
      StillFree(s, tmr);
    }

    method Retire(tmr: UTimer)
      requires InHand(tmr)
      modifies this`freeTimers, this`free, tmr`next
      ensures Heap()
    {
      PushFree(tmr);
      assert Linked(activeTimers, active) && Holds(active, timers);
    }

    // U_TimerStartTimerRequest: `ok` is the status of the parsed message, the result AM_CB_STATUS_OK.
    method StartTimerRequest(ok: bool, actorId: nat, timerId: nat, timeout: nat, repeat: nat) returns (done: bool)
      requires Heap()
      modifies this`activeTimers, this`freeTimers, this`active, this`free, this`nodes, this`timers, this`started
      modifies active, free
      ensures Heap() && done == ok && old(nodes) <= nodes && fresh(nodes - old(nodes))
      ensures Model() == if ok then Start(old(Model()), actorId, timerId, timeout, repeat) else old(Model())
    {
      hide Insert, NoDuplicates;
      done := ok;
      if ok {
        ghost var m := Model();
        var tmr := TakeNode();
        Launch(tmr, actorId, timerId, timeout, repeat);
        StartIs(m, Model(), started[|m.started|]);
      }
    }

    method Launch(tmr: UTimer, actorId: nat, timerId: nat, timeout: nat, repeat: nat)
      requires InHand(tmr)
      modifies this`activeTimers, this`active, this`timers, this`started, tmr, active`next
      ensures Heap()
      ensures var t := Timer(old(|started|), actorId, timerId, timeout, repeat, total + timeout);
              started == old(started) + [t] && timers == Insert(old(timers), t)
    {
      hide Insert, NoShared, NoDuplicates, Members;
      tmr.Set(actorId, timerId, timeout, repeat, total + timeout, |started|);
      started := started + [tmr.Value()];
      assert InHand(tmr);
      Enqueue(tmr);
    }

    // U_TimerStopTimerRequest
    method StopTimerRequest(ok: bool, actorId: nat, timerId: nat) returns (done: bool)
      requires Heap()
      modifies this`activeTimers, this`freeTimers, this`active, this`free, this`timers, this`stopped, active`next
      ensures Heap()
      ensures done == (ok && MatchPos(old(timers), actorId, timerId) < |old(timers)|)
      ensures Model() == if ok then Stop(old(Model()), actorId, timerId) else old(Model())
    {
      done := false;
      if ok {
        ghost var v := timers;
        done := ReleaseTimer(actorId, timerId);
        if done {
          stopped := stopped + {v[MatchPos(v, actorId, timerId)].id};
        }
      }
    }

    // U_TimerTick takes the head off the active list.
    method TakeHead() returns (tmr: UTimer)
      requires Heap() && active != []
      modifies this`activeTimers, this`active, this`timers, active`next
      ensures tmr == old(active)[0] && tmr.next == null
      ensures InHand(tmr) && active == old(active)[1..] && timers == old(timers)[1..]
    {
      ghost var s, v := active, timers;
      tmr := activeTimers;
      assert forall j :: 0 <= j < |free| ==> free[j] !in s;
      Unlink(null, tmr, 0);
      assert active == s[1..] && timers == v[1..];
      assert Linked(freeTimers, free);
      tmr.next := null;
    }

    // What U_TimerTick does with the timer it took off the list.
    method Fire(tmr: UTimer, alloc: bool)
      requires InHand(tmr)
      modifies this`activeTimers, this`freeTimers, this`active, this`free, this`timers, this`log, tmr, active`next
      ensures Heap()
      ensures var t := old(tmr.Value());
              && log == old(log) + [Firing(t.id, t.actorId, t.timerId, total, alloc)]
              && timers == if t.repeat != 0 then Insert(old(timers), Rearmed(t, total)) else old(timers)
    {
      log := log + [Firing(tmr.id, tmr.actorId, tmr.timerId, total, alloc)];
      if tmr.repeat != 0 {
        tmr.Rearm(total);
        assert InHand(tmr);
        Enqueue(tmr);
      } else {
        Retire(tmr);
      }
    }

    // U_TimerTick: `alloc` tells whether a message can be allocated.
    method Tick(diff: int, alloc: bool)
      requires Heap()
      modifies this`activeTimers, this`freeTimers, this`active, this`free, this`timers, this`log, this`total, active
      ensures Heap()
      ensures Model() == TimerSpec.Tick(old(Model()), diff, alloc)
    {
      ghost var m := Model();
      if 0 < diff {
        total := total + diff;
      }
      if activeTimers != null {
        assert active[0].Value() == timers[0];
        if activeTimers.triggerAt <= total {
          FireHead(alloc);
          TickIs(m, Model(), diff, alloc);
        }
      }
    }

    // The branch of U_TimerTick for a head that is due.
    method FireHead(alloc: bool)
      requires Heap() && active != []
      modifies this`activeTimers, this`freeTimers, this`active, this`free, this`timers, this`log, active
      ensures Heap()
      ensures var t := old(timers[0]);
              && log == old(log) + [Firing(t.id, t.actorId, t.timerId, total, alloc)]
              && timers == if t.repeat != 0 then Insert(old(timers)[1..], Rearmed(t, total)) else old(timers)[1..]
    {
      ghost var t := timers[0];
      assert active[0].Value() == t;
      var tmr := TakeHead();
      assert tmr.Value() == t;
      Fire(tmr, alloc);
    }

    // The message callback and the tick, by operation.
    method Do(op: Op)
      requires Heap()
      modifies this, active, free
      ensures Heap() && Model() == Exec(old(Model()), op)
      ensures old(nodes) <= nodes && fresh(nodes - old(nodes))
    {
      match op {
        case StartOp(a, t, timeout, repeat) => var _ := StartTimerRequest(true, a, t, timeout, repeat);
        case StopOp(a, t) => var _ := StopTimerRequest(true, a, t);
        case TickOp(diff, alloc) => Tick(diff, alloc);
      }
    }

    // U_TimerDestroy: every node that was ever allocated is freed exactly once.
    method Destroy()
      requires Heap()
      modifies this
      ensures activeTimers == null && freeTimers == null
      ensures released == old(released) + (old(free) + old(active))
      ensures NoDuplicates(old(free) + old(active)) && Members(old(free) + old(active)) == old(nodes)
    {
      ghost var i := 0;
      while freeTimers != null
        invariant i <= |free| && Linked(freeTimers, free[i..]) && Linked(activeTimers, active)
        invariant released == old(released) + free[..i] && free == old(free) && active == old(active)
        decreases |free| - i
      {
        LinkedTail(freeTimers, free[i..]);
        assert free[i..][1..] == free[i + 1..];
        var tmr := freeTimers;
        freeTimers := tmr.next;
        released := released + [tmr];
        i := i + 1;
      }
      i := 0;
      while activeTimers != null
        invariant i <= |active| && Linked(activeTimers, active[i..]) && freeTimers == null
        invariant released == old(released) + (free + active[..i]) && free == old(free) && active == old(active)
        decreases |active| - i
      {
        LinkedTail(activeTimers, active[i..]);
        assert active[i..][1..] == active[i + 1..];
        var tmr := activeTimers;
        activeTimers := tmr.next;
        released := released + [tmr];
        i := i + 1;
      }
    }
  }

  // Any run of requests and ticks on the linked lists is the run of the specification.
  method Drive(q: TimerQueue, ops: seq<Op>)
    requires q.Heap()
    modifies q, q.nodes
    ensures q.Heap() && q.Model() == ExecAll(old(q.Model()), ops)
  {
    ghost var s := q.Model();
    for k := 0 to |ops|
      invariant q.Heap() && q.Model() == ExecAll(s, ops[..k])
      invariant old(q.nodes) <= q.nodes && fresh(q.nodes - old(q.nodes))
    {
      assert ops[..k + 1][..k] == ops[..k];
      assert forall x :: x in q.active ==> x in Members(q.active);
      assert forall x :: x in q.free ==> x in Members(q.free);
      q.Do(ops[k]);
    }
    assert ops[..|ops|] == ops;
  }
}
