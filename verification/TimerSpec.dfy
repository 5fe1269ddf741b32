/** The timer queue of u_timer.c as values, and what holds over every run of it. */
module TimerSpec {

  const REPEAT_INFINITE: nat := 0xFFFF_FFFF   // U_TIMER_REPEAT_INFINITE

  // One started timer; `id` numbers the start requests.
  datatype Timer = Timer(id: nat, actorId: nat, timerId: nat, timeout: nat, repeat: nat, triggerAt: int)

  // A timeout that was due at a tick; `sent` tells whether a message could be allocated for it.
  datatype Firing = Firing(id: nat, actorId: nat, timerId: nat, at: int, sent: bool)

  // `started` and `stopped` record the history the queue itself forgets.
  datatype State = State(active: seq<Timer>, total: int, log: seq<Firing>, started: seq<Timer>, stopped: set<nat>)

  const INITIAL := State([], 0, [], [], {})

  // Where U_TimerInsertTimer puts a timer: in front of the first one that is not due earlier.
  function InsertPos(s: seq<Timer>, triggerAt: int): (k: nat)
    ensures k <= |s|
    ensures forall i :: 0 <= i < k ==> s[i].triggerAt < triggerAt
    ensures k < |s| ==> triggerAt <= s[k].triggerAt
  {
    if s == [] || triggerAt <= s[0].triggerAt then 0 else 1 + InsertPos(s[1..], triggerAt)
  }

  lemma InsertPosIs(s: seq<Timer>, triggerAt: int, k: nat)
    requires k <= |s| && (forall i :: 0 <= i < k ==> s[i].triggerAt < triggerAt)
    requires k < |s| ==> triggerAt <= s[k].triggerAt
    ensures InsertPos(s, triggerAt) == k
  {
  }

  function Insert(s: seq<Timer>, t: Timer): (r: seq<Timer>)
    ensures |r| == |s| + 1
  {
    var k := InsertPos(s, t.triggerAt);
    s[..k] + [t] + s[k..]
  }

  // The first timer of an actor with this timer id, or |s|.
  function MatchPos(s: seq<Timer>, actorId: nat, timerId: nat): (k: nat)
    ensures k <= |s|
    ensures k < |s| ==> s[k].actorId == actorId && s[k].timerId == timerId
    ensures forall i :: 0 <= i < k ==> !(s[i].actorId == actorId && s[i].timerId == timerId)
  {
    if s == [] || (s[0].actorId == actorId && s[0].timerId == timerId) then 0
    else 1 + MatchPos(s[1..], actorId, timerId)
  }

  lemma MatchPosIs(s: seq<Timer>, actorId: nat, timerId: nat, k: nat)
    requires k <= |s| && forall i :: 0 <= i < k ==> !(s[i].actorId == actorId && s[i].timerId == timerId)
    requires k < |s| ==> s[k].actorId == actorId && s[k].timerId == timerId
    ensures MatchPos(s, actorId, timerId) == k
  {
  }

  function Without(s: seq<Timer>, k: nat): (r: seq<Timer>)
    requires k < |s|
    ensures |r| == |s| - 1
  {
    s[..k] + s[k + 1..]
  }

  function Start(s: State, actorId: nat, timerId: nat, timeout: nat, repeat: nat): State {
    var t := Timer(|s.started|, actorId, timerId, timeout, repeat, s.total + timeout);
    s.(active := Insert(s.active, t), started := s.started + [t])
  }

  function Stop(s: State, actorId: nat, timerId: nat): State {
    var k := MatchPos(s.active, actorId, timerId);
    if k == |s.active| then s
    else s.(active := Without(s.active, k), stopped := s.stopped + {s.active[k].id})
  }

  function Later(total: int, diff: int): int {
    if 0 < diff then total + diff else total
  }

  // A timer after it has fired and is queued again.
  function Rearmed(t: Timer, total: int): Timer {
    t.(repeat := if t.repeat != REPEAT_INFINITE && t.repeat > 0 then t.repeat - 1 else t.repeat,
       triggerAt := total + t.timeout)
  }

  function Tick(s: State, diff: int, alloc: bool): State {
    var total := Later(s.total, diff);
    if s.active == [] || s.active[0].triggerAt > total then s.(total := total)
    else
      var t := s.active[0];
      s.(total := total,
         log := s.log + [Firing(t.id, t.actorId, t.timerId, total, alloc)],
         active := if t.repeat != 0 then Insert(s.active[1..], Rearmed(t, total)) else s.active[1..])
  }

  datatype Op =
    | StartOp(actorId: nat, timerId: nat, timeout: nat, repeat: nat)
    | StopOp(actorId: nat, timerId: nat)
    | TickOp(diff: int, alloc: bool)

  function Exec(s: State, op: Op): State {
    match op
    case StartOp(a, t, timeout, repeat) => Start(s, a, t, timeout, repeat)
    case StopOp(a, t) => Stop(s, a, t)
    case TickOp(diff, alloc) => Tick(s, diff, alloc)
  }

  function ExecAll(s: State, ops: seq<Op>): State
    decreases |ops|
  {
    if ops == [] then s else Exec(ExecAll(s, ops[..|ops| - 1]), ops[|ops| - 1])
  }

  // How often timer `id` has fired.
  function Count(log: seq<Firing>, id: nat): nat {
    if log == [] then 0
    else Count(log[..|log| - 1], id) + (if log[|log| - 1].id == id then 1 else 0)
  }

  // When timer `id` is due next: its timeout after it fired last, or `first` when it has not fired yet.
  function DueAt(log: seq<Firing>, id: nat, first: int, timeout: nat): int {
    if log == [] then first
    else if log[|log| - 1].id == id then log[|log| - 1].at + timeout
    else DueAt(log[..|log| - 1], id, first, timeout)
  }

  ghost predicate Sorted(s: seq<Timer>) {
    forall i, j :: 0 <= i < j < |s| ==> s[i].triggerAt <= s[j].triggerAt
  }

  ghost predicate DistinctIds(s: seq<Timer>) {
    forall i, j :: 0 <= i < j < |s| ==> s[i].id != s[j].id
  }

  ghost predicate Active(s: seq<Timer>, id: nat) {
    exists t :: t in s && t.id == id
  }

  // An active timer is the one that was started, with its remaining repeats and its next due time.
  ghost predicate Faithful(s: State, t: Timer) {
    && t.id < |s.started| && t.id !in s.stopped
    && var t0 := s.started[t.id];
       && t.actorId == t0.actorId && t.timerId == t0.timerId && t.timeout == t0.timeout
       && (if t0.repeat == REPEAT_INFINITE then t.repeat == REPEAT_INFINITE
           else t.repeat + Count(s.log, t.id) == t0.repeat && t.repeat < REPEAT_INFINITE)
       && t.triggerAt == DueAt(s.log, t.id, t0.triggerAt, t0.timeout)
       && t0.triggerAt <= t.triggerAt <= s.total + t.timeout
       && forall i :: 0 <= i < |s.log| && s.log[i].id == t.id ==> s.log[i].at + t.timeout <= t.triggerAt
  }

  // A timer that is gone was stopped, or had a finite repeat count and is used up.
  ghost predicate Spent(s: State, id: nat)
    requires id < |s.started|
  {
    id in s.stopped
    || (s.started[id].repeat != REPEAT_INFINITE && Count(s.log, id) == s.started[id].repeat + 1)
  }

  // No timeout before its time, addressed as requested, and timeouts of one timer at least its period apart.
  ghost predicate Punctual(log: seq<Firing>, started: seq<Timer>, total: int) {
    && (forall i :: 0 <= i < |log| ==>
          && log[i].id < |started| && started[log[i].id].triggerAt <= log[i].at <= total
          && log[i].actorId == started[log[i].id].actorId && log[i].timerId == started[log[i].id].timerId)
    && (forall i, j :: 0 <= i < j < |log| && log[i].id == log[j].id ==>
          log[i].at + started[log[i].id].timeout <= log[j].at)
  }

  ghost predicate Inv(s: State) {
    && Sorted(s.active) && DistinctIds(s.active)
    && (forall t :: t in s.active ==> Faithful(s, t))
    && (forall id :: 0 <= id < |s.started| ==>
          s.started[id].id == id && s.started[id].repeat <= REPEAT_INFINITE
          && (Active(s.active, id) || Spent(s, id)))
    && (forall id :: id in s.stopped ==> id < |s.started|)
    && Punctual(s.log, s.started, s.total)
  }

  // Element i of a list into which x was put at place k.
  function Spliced(s: seq<Timer>, x: Timer, k: nat, i: nat): Timer
    requires k <= |s| && i <= |s|
  {
    if i < k then s[i] else if i == k then x else s[i - 1]
  }

  lemma InsertAt(s: seq<Timer>, t: Timer)
    ensures forall i :: 0 <= i <= |s| ==> Insert(s, t)[i] == Spliced(s, t, InsertPos(s, t.triggerAt), i)
  {
  }

  lemma InsertSorted(s: seq<Timer>, t: Timer)
    requires Sorted(s)
    ensures Sorted(Insert(s, t))
  {
    InsertAt(s, t);
    var r := Insert(s, t);
    forall i, j | 0 <= i < j < |r| ensures r[i].triggerAt <= r[j].triggerAt {
      var k := InsertPos(s, t.triggerAt);
      assert r[i] == Spliced(s, t, k, i) && r[j] == Spliced(s, t, k, j);
      assert k < j ==> s[k].triggerAt <= s[j - 1].triggerAt;
    }
  }

  lemma InsertDistinct(s: seq<Timer>, t: Timer)
    requires DistinctIds(s) && forall i :: 0 <= i < |s| ==> s[i].id != t.id
    ensures DistinctIds(Insert(s, t))
  {
    InsertAt(s, t);
    var r := Insert(s, t);
    forall i, j | 0 <= i < j < |r| ensures r[i].id != r[j].id {
      var k := InsertPos(s, t.triggerAt);
      assert r[i] == Spliced(s, t, k, i) && r[j] == Spliced(s, t, k, j);
    }
  }

  lemma InsertMembers(s: seq<Timer>, t: Timer)
    ensures forall x :: x in Insert(s, t) <==> x == t || x in s
  {
    InsertAt(s, t);
    var k, r := InsertPos(s, t.triggerAt), Insert(s, t);
    assert r[k] == Spliced(s, t, k, k);
    forall x | x in s ensures x in r {
      var i :| 0 <= i < |s| && s[i] == x;
      var j := if i < k then i else i + 1;
      assert r[j] == Spliced(s, t, k, j);
    }
  }

  lemma CountExtend(log: seq<Firing>, e: Firing, id: nat)
    ensures Count(log + [e], id) == Count(log, id) + if e.id == id then 1 else 0
  {
    assert (log + [e])[..|log|] == log;
  }

  lemma DueExtend(log: seq<Firing>, e: Firing, id: nat, first: int, timeout: nat)
    ensures DueAt(log + [e], id, first, timeout) == if e.id == id then e.at + timeout else DueAt(log, id, first, timeout)
  {
    assert (log + [e])[..|log|] == log;
  }

  lemma {:induction false} Unseen(log: seq<Firing>, id: nat, first: int, timeout: nat)
    requires forall i :: 0 <= i < |log| ==> log[i].id != id
    ensures Count(log, id) == 0 && DueAt(log, id, first, timeout) == first
  {
    if log != [] { Unseen(log[..|log| - 1], id, first, timeout); }
  }

  // A timer that an operation does not concern stays faithful.
  lemma Unconcerned(s: State, s': State, t: Timer)
    requires Faithful(s, t) && s.started <= s'.started && t.id !in s'.stopped && s.total <= s'.total
    requires s'.log == s.log || exists e :: s'.log == s.log + [e] && e.id != t.id
    ensures Faithful(s', t)
  {
    if s'.log != s.log {
      var e :| s'.log == s.log + [e] && e.id != t.id;
      CountExtend(s.log, e, t.id);
      DueExtend(s.log, e, t.id, s.started[t.id].triggerAt, t.timeout);
    }
  }

  lemma StartKeeps(s: State, actorId: nat, timerId: nat, timeout: nat, repeat: nat)
    requires Inv(s) && repeat <= REPEAT_INFINITE
    ensures Inv(Start(s, actorId, timerId, timeout, repeat))
  {
    var s' := Start(s, actorId, timerId, timeout, repeat);
    var t := s'.started[|s.started|];
    InsertMembers(s.active, t);
    InsertSorted(s.active, t);
    assert forall i :: 0 <= i < |s.active| ==> Faithful(s, s.active[i]);
    InsertDistinct(s.active, t);
    Unseen(s.log, t.id, t.triggerAt, timeout);
    forall x | x in s'.active ensures Faithful(s', x) {
      if x != t { Unconcerned(s, s', x); }
    }
    assert t in s'.active;
    forall id | 0 <= id < |s'.started| ensures Active(s'.active, id) || Spent(s', id) {
      if id < |s.started| && Active(s.active, id) {
        var x :| x in s.active && x.id == id;
        assert x in s'.active;
      }
    }
  }

  lemma WithoutMembers(s: seq<Timer>, k: nat)
    requires k < |s| && Sorted(s) && DistinctIds(s)
    ensures forall x :: x in s <==> x == s[k] || x in Without(s, k)
    ensures forall x :: x in Without(s, k) ==> x.id != s[k].id
    ensures Sorted(Without(s, k)) && DistinctIds(Without(s, k))
  {
    var r := Without(s, k);
    forall i | 0 <= i < |r| ensures r[i] == s[if i < k then i else i + 1] {
    }
    forall x | x in s ensures x == s[k] || x in r {
      var i :| 0 <= i < |s| && s[i] == x;
      assert i != k ==> r[if i < k then i else i - 1] == x;
    }
  }

  lemma StopKeeps(s: State, actorId: nat, timerId: nat)
    requires Inv(s)
    ensures Inv(Stop(s, actorId, timerId))
  {
    var s' := Stop(s, actorId, timerId);
    var k := MatchPos(s.active, actorId, timerId);
    if k < |s.active| {
      WithoutMembers(s.active, k);
      assert Faithful(s, s.active[k]);
      forall x | x in s'.active ensures Faithful(s', x) {
        Unconcerned(s, s', x);
      }
      forall id | 0 <= id < |s'.started| ensures Active(s'.active, id) || Spent(s', id) {
        if Active(s.active, id) {
          var x :| x in s.active && x.id == id;
          assert x == s.active[k] || x in s'.active;
        }
      }
    }
  }

  lemma TickKeeps(s: State, diff: int, alloc: bool)
    requires Inv(s)
    ensures Inv(Tick(s, diff, alloc))
  {
    var s' := Tick(s, diff, alloc);
    if s.active == [] || s.active[0].triggerAt > s'.total {
      forall x | x in s'.active ensures Faithful(s', x) {
        Unconcerned(s, s', x);
      }
      forall id | 0 <= id < |s'.started| ensures Active(s'.active, id) || Spent(s', id) {
        assert Active(s.active, id) || Spent(s, id);
      }
    } else {
      FiringKeeps(s, s', s.active[0], s'.log[|s.log|]);
    }
  }

  lemma PunctualExtend(s: State, t: Timer, e: Firing)
    requires Punctual(s.log, s.started, s.total) && Faithful(s, t)
    requires e.id == t.id && e.actorId == t.actorId && e.timerId == t.timerId && t.triggerAt <= e.at && s.total <= e.at
    ensures Punctual(s.log + [e], s.started, e.at)
  {
    var log := s.log + [e];
    forall i, j | 0 <= i < j < |log| && log[i].id == log[j].id
      ensures log[i].at + s.started[log[i].id].timeout <= log[j].at
    {
      assert log[i] == s.log[i];
      if j < |s.log| { assert log[j] == s.log[j]; }
    }
  }

  // The head of a list of distinct timers differs from what follows it.
  lemma HeadAndRest(s: seq<Timer>)
    requires s != [] && Sorted(s) && DistinctIds(s)
    ensures Sorted(s[1..]) && DistinctIds(s[1..])
    ensures forall x :: x in s <==> x == s[0] || x in s[1..]
    ensures forall x :: x in s[1..] ==> x.id != s[0].id && s[0].triggerAt <= x.triggerAt
  {
  }

  lemma FiringKeeps(s: State, s': State, t: Timer, e: Firing)
    requires Inv(s) && s.active != [] && t == s.active[0] && s.total <= s'.total && t.triggerAt <= s'.total
    requires e == Firing(t.id, t.actorId, t.timerId, s'.total, e.sent) && s'.log == s.log + [e]
    requires s'.started == s.started && s'.stopped == s.stopped
    requires s'.active == if t.repeat != 0 then Insert(s.active[1..], Rearmed(t, s'.total)) else s.active[1..]
    ensures Inv(s')
  {
    var rest, t' := s.active[1..], Rearmed(t, s'.total);
    HeadAndRest(s.active);
    assert Faithful(s, t);
    PunctualExtend(s, t, e);
    InsertMembers(rest, t');
    InsertSorted(rest, t');
    InsertDistinct(rest, t');
    hide Insert, Faithful, Punctual, Spent, DistinctIds;
    forall x | x in s'.active ensures Faithful(s', x) {
      assert x in rest || (x == t' && t.repeat != 0);
      FiringFaithful(s, s', t, e, x);
    }
    forall id | 0 <= id < |s'.started| ensures Active(s'.active, id) || Spent(s', id) {
      assert t.repeat != 0 ==> t' in s'.active;
      FiringAccounts(s, s', t, e, id);
    }
  }

  // The timer that fired is queued as its log says; the others are as they were.
  lemma FiringFaithful(s: State, s': State, t: Timer, e: Firing, x: Timer)
    requires Faithful(s, t) && s.total <= s'.total && t.triggerAt <= s'.total && s'.log == s.log + [e]
    requires e.id == t.id && e.at == s'.total && s'.started == s.started && s'.stopped == s.stopped
    requires (x == Rearmed(t, s'.total) && t.repeat != 0) || (x.id != t.id && Faithful(s, x))
    ensures Faithful(s', x)
  {
    if x.id != t.id {
      Unconcerned(s, s', x);
    } else {
      CountExtend(s.log, e, t.id);
      DueExtend(s.log, e, t.id, s.started[t.id].triggerAt, t.timeout);
    }
  }

  // After a firing every timer is still active or spent.
  lemma FiringAccounts(s: State, s': State, t: Timer, e: Firing, id: nat)
    requires id < |s.started| && (Active(s.active, id) || Spent(s, id)) && Faithful(s, t)
    requires e.id == t.id && s'.log == s.log + [e] && s'.started == s.started && s'.stopped == s.stopped
    requires forall x :: x in s.active && x != t ==> x in s'.active
    requires id != t.id ==> forall x :: x in s.active && x.id == id ==> x != t
    requires t.repeat != 0 ==> exists x :: x in s'.active && x.id == t.id
    ensures Active(s'.active, id) || Spent(s', id)
  {
    CountExtend(s.log, e, id);
    if id != t.id && Active(s.active, id) {
      var x :| x in s.active && x.id == id;
      assert x in s'.active;
    }
  }

  // Requests carry 32-bit repeat counts.
  predicate WellFormed(op: Op) {
    op.StartOp? ==> op.repeat <= REPEAT_INFINITE
  }

  lemma ExecKeeps(s: State, op: Op)
    requires Inv(s) && WellFormed(op)
    ensures Inv(Exec(s, op))
  {
    match op {
      case StartOp(a, t, timeout, repeat) => StartKeeps(s, a, t, timeout, repeat);
      case StopOp(a, t) => StopKeeps(s, a, t);
      case TickOp(diff, alloc) => TickKeeps(s, diff, alloc);
    }
  }

  lemma InitialInv()
    ensures Inv(INITIAL)
  {
  }

  ghost predicate AllWellFormed(ops: seq<Op>) {
    forall i :: 0 <= i < |ops| ==> WellFormed(ops[i])
  }

  lemma {:induction false} RunKeeps(s: State, ops: seq<Op>)
    requires Inv(s) && AllWellFormed(ops)
    ensures Inv(ExecAll(s, ops))
    decreases |ops|
  {
    if ops != [] {
      RunKeeps(s, ops[..|ops| - 1]);
      ExecKeeps(ExecAll(s, ops[..|ops| - 1]), ops[|ops| - 1]);
    }
  }
}
