/** Client, worker thread and callback pump of the downloader in every interleaving. */
module DownloaderProtocol {
  import opened Wrappers
  import opened SStreamSpec
  import opened DownloaderSpec

  // N_dl with its lists. `inHand` are entries the pump has taken off the done list and not yet called back,
  // `delivered` those whose callback has run, `accepted` counts the downloads ever accepted, `admitted` the
  // callers of N_Download between its state test and its locked section.
  datatype Dl = Dl(mode: Mode, handle: int, busy: seq<Entry>, done: seq<Entry>,
                   inHand: seq<Entry>, delivered: seq<Entry>, accepted: nat, admitted: nat)

  const BOOT := Dl(Off, 0, [], [], [], [], 0, 0)

  datatype Op =
    | Init                                                                   // N_DownloadInit
    | BeginShutDown | EndShutDown                                            // N_DownloadShutDown before and after the join
    | Admit                                                                  // the state test of N_Download
    | Submit(url: Text, maxSize: nat, hasCallback: bool, alloc: bool)        // its locked section
    | Work(io: Io)                                                           // one pass of ndl_thread
    | Take                                                                   // N_DownloadStep under the mutex
    | Deliver(k: nat)                                                        // N_DownloadStep after it

  function NewEntry(id: nat, handle: int, url: Text, maxSize: nat, hasCallback: bool): Entry {
    Entry(id, handle, false, Starting, Initial, hasCallback, url, 0, 0, Zeroed(maxSize), 0, [])
  }

  // The next handle: an int that is put back to 1 when it is not positive.
  function NextHandle(handle: int): int {
    if handle <= 0 then 1 else handle
  }

  function HandleAfter(handle: int): int {
    if NextHandle(handle) == 0x7FFF_FFFF then -0x8000_0000 else NextHandle(handle) + 1
  }

  // N_Download looks at the state before it takes the mutex.
  function DoAdmit(d: Dl): Dl {
    if d.mode == Off || d.mode == ShuttingDown then d else d.(admitted := d.admitted + 1)
  }

  // Its locked section goes on with what was seen, whatever the state has become.
  function DoSubmit(d: Dl, url: Text, maxSize: nat, hasCallback: bool, alloc: bool): Dl {
    if d.admitted == 0 then d
    else if !alloc then d.(admitted := d.admitted - 1)
    else
      d.(admitted := d.admitted - 1, handle := HandleAfter(d.handle), accepted := d.accepted + 1,
         busy := d.busy + [NewEntry(d.accepted, NextHandle(d.handle), url, maxSize, hasCallback)])
  }

  // What N_Download returns behind its state test.
  function SubmitResult(d: Dl, alloc: bool): int {
    if d.admitted == 0 || !alloc then 0 else NextHandle(d.handle)
  }

  function DoWork(d: Dl, io: Io): Dl {
    if d.mode == Off || d.mode == ShuttingDown || d.busy == [] then d
    else
      var e := d.busy[0];
      if e.state == Finished then d.(busy := d.busy[1..], done := [e] + d.done)
      else if e.bufPos <= |e.buf| then d.(busy := d.busy[0 := StepEntry(e, io)])
      else d
  }

  function DoTake(d: Dl): Dl {
    if d.mode == Off || d.done == [] then d
    else d.(done := d.done[1..], inHand := d.inHand + [d.done[0]])
  }

  function DoDeliver(d: Dl, k: nat): Dl {
    if k < |d.inHand| then
      d.(inHand := d.inHand[..k] + d.inHand[k + 1..], delivered := d.delivered + [d.inHand[k]])
    else d
  }

  function Exec(d: Dl, op: Op): Dl {
    match op
    case Init => if d.mode == Off then d.(mode := Idle, handle := 1) else d
    case BeginShutDown => if d.mode == Idle then d.(mode := ShuttingDown) else d
    case EndShutDown => if d.mode == ShuttingDown then d.(mode := Off) else d
    case Admit => DoAdmit(d)
    case Submit(url, maxSize, hasCallback, alloc) => DoSubmit(d, url, maxSize, hasCallback, alloc)
    case Work(io) => DoWork(d, io)
    case Take => DoTake(d)
    case Deliver(k) => DoDeliver(d, k)
  }

  function ExecAll(d: Dl, ops: seq<Op>): Dl
    decreases |ops|
  {
    if ops == [] then d else Exec(ExecAll(d, ops[..|ops| - 1]), ops[|ops| - 1])
  }

  // ----- the invariant -----

  // The ids of some entries, with multiplicity.
  function IdBag(s: seq<Entry>): multiset<nat> {
    if s == [] then multiset{} else multiset{s[0].id} + IdBag(s[1..])
  }

  // Each number below n once.
  function Range(n: nat): (m: multiset<nat>)
    ensures forall x: nat :: m[x] == if x < n then 1 else 0
  {
    if n == 0 then multiset{} else Range(n - 1) + multiset{n - 1}
  }

  // How many entries have left the busy list.
  function Left(d: Dl): int {
    d.accepted - |d.busy|
  }

  ghost predicate AllFinished(s: seq<Entry>) {
    forall i :: 0 <= i < |s| ==> s[i].state == Finished && GoodEntry(s[i])
  }

  // The busy list holds the most recently accepted downloads in order, and only its head has been touched.
  ghost predicate Queue(busy: seq<Entry>, left: int) {
    && left >= 0
    && (forall j :: 0 <= j < |busy| ==> busy[j].id == left + j && GoodEntry(busy[j]))
    && (forall j :: 1 <= j < |busy| ==> busy[j].state == Initial)
  }

  ghost predicate Inv(d: Dl) {
    && Queue(d.busy, Left(d))
    && AllFinished(d.done) && AllFinished(d.inHand) && AllFinished(d.delivered)
    && IdBag(d.done) + IdBag(d.inHand) + IdBag(d.delivered) == Range(Left(d))
  }

  lemma {:induction false} BagAppend(s: seq<Entry>, e: Entry)
    ensures IdBag(s + [e]) == IdBag(s) + multiset{e.id}
  {
    if s == [] {
      assert s + [e] == [e];
    } else {
      assert (s + [e])[1..] == s[1..] + [e];
      BagAppend(s[1..], e);
    }
  }

  lemma {:induction false} BagRemove(s: seq<Entry>, k: nat)
    requires k < |s|
    ensures IdBag(s) == IdBag(s[..k] + s[k + 1..]) + multiset{s[k].id}
  {
    var r := s[..k] + s[k + 1..];
    if k == 0 {
      assert r == s[1..];
    } else {
      assert r[1..] == s[1..][..k - 1] + s[1..][k..];
      BagRemove(s[1..], k - 1);
    }
  }

  lemma SubmitKeeps(d: Dl, url: Text, maxSize: nat, hasCallback: bool, alloc: bool)
    requires Inv(d) && maxSize < 0x1_0000_0000
    ensures Inv(DoSubmit(d, url, maxSize, hasCallback, alloc))
  {
    var d' := DoSubmit(d, url, maxSize, hasCallback, alloc);
    assert Left(d') == Left(d);
    if alloc && d.admitted > 0 {
      assert GoodEntry(d'.busy[|d.busy|]);
    }
  }

  // The head of the busy list is finished and goes to the front of the done list.
  lemma FinishKeeps(d: Dl, d': Dl)
    requires Inv(d) && d.busy != [] && d.busy[0].state == Finished
    requires d' == d.(busy := d.busy[1..], done := [d.busy[0]] + d.done)
    ensures Inv(d')
  {
    hide GoodEntry, IdBag;
    var e := d.busy[0];
    assert Left(d') == Left(d) + 1 && e.id == Left(d);
    assert forall j :: 0 <= j < |d'.busy| ==> d'.busy[j] == d.busy[j + 1];
    assert forall j :: 1 <= j < |d'.done| ==> d'.done[j] == d.done[j - 1];
    BagCons(e, d.done);
    assert IdBag(d'.done) + IdBag(d.inHand) + IdBag(d.delivered)
        == IdBag(d.done) + IdBag(d.inHand) + IdBag(d.delivered) + multiset{e.id};
    assert Range(Left(d')) == Range(Left(d)) + multiset{e.id};
  }

  lemma BagCons(e: Entry, s: seq<Entry>)
    ensures IdBag([e] + s) == multiset{e.id} + IdBag(s)
  {
    assert ([e] + s)[1..] == s;
  }

  lemma QueueStep(busy: seq<Entry>, left: int, e: Entry)
    requires Queue(busy, left) && busy != [] && GoodEntry(e) && e.id == busy[0].id
    ensures Queue(busy[0 := e], left)
  {
    hide GoodEntry;
  }

  lemma WorkKeeps(d: Dl, io: Io)
    requires Inv(d)
    ensures Inv(DoWork(d, io))
  {
    hide GoodEntry, StepEntry, IdBag;
    var d' := DoWork(d, io);
    if d' != d {
      var e := d.busy[0];
      if e.state == Finished {
        FinishKeeps(d, d');
      } else {
        StepKeeps(e, io);
        StepIdentity(e, io);
        QueueStep(d.busy, Left(d), StepEntry(e, io));
        assert Left(d') == Left(d);
      }
    }
  }

  // A step of an entry keeps which download it is.
  lemma StepIdentity(e: Entry, io: Io)
    requires e.bufPos <= |e.buf|
    ensures var e' := StepEntry(e, io);
            e'.id == e.id && e'.handle == e.handle && e'.url == e.url && e'.hasCallback == e.hasCallback && |e'.buf| == |e.buf|
  {
    hide ScanHeader;
    if e.state == WaitReply && |io.bytes| == io.nread && e.bufPos + |io.bytes| <= |e.buf| {
      ScanFrame(Stored(e, io.bytes));
    }
  }

  lemma TakeKeeps(d: Dl)
    requires Inv(d)
    ensures Inv(DoTake(d))
  {
    hide GoodEntry, Queue, IdBag, Range;
    var d' := DoTake(d);
    if d' != d {
      var e := d.done[0];
      assert [e] + d'.done == d.done;
      BagCons(e, d'.done);
      BagAppend(d.inHand, e);
      assert Left(d') == Left(d);
      assert IdBag(d'.done) + IdBag(d'.inHand) == IdBag(d.done) + IdBag(d.inHand);
    }
  }

  lemma DeliverKeeps(d: Dl, k: nat)
    requires Inv(d)
    ensures Inv(DoDeliver(d, k))
  {
    hide GoodEntry, Queue, IdBag, Range;
    var d' := DoDeliver(d, k);
    if k < |d.inHand| {
      BagRemove(d.inHand, k);
      BagAppend(d.delivered, d.inHand[k]);
      assert Left(d') == Left(d);
      assert IdBag(d'.inHand) + IdBag(d'.delivered) == IdBag(d.inHand) + IdBag(d.delivered);
      assert IdBag(d.done) + (IdBag(d'.inHand) + IdBag(d'.delivered)) == IdBag(d'.done) + IdBag(d'.inHand) + IdBag(d'.delivered);
      assert forall i :: 0 <= i < |d'.inHand| ==> d'.inHand[i] == d.inHand[if i < k then i else i + 1];
    }
  }

  predicate WellFormed(op: Op) {
    op.Submit? ==> op.maxSize < 0x1_0000_0000
  }

  lemma ExecKeeps(d: Dl, op: Op)
    requires Inv(d) && WellFormed(op)
    ensures Inv(Exec(d, op))
  {
    hide GoodEntry, Queue, AllFinished, IdBag, Range, DoSubmit, DoWork, DoTake, DoDeliver;
    match op {
      case Admit => assert Left(DoAdmit(d)) == Left(d);
      case Submit(url, maxSize, hasCallback, alloc) => SubmitKeeps(d, url, maxSize, hasCallback, alloc);
      case Work(io) => WorkKeeps(d, io);
      case Take => TakeKeeps(d);
      case Deliver(k) => DeliverKeeps(d, k);
      case _ =>
    }
  }

  lemma BootInv()
    ensures Inv(BOOT)
  {
  }

  lemma {:induction false} RunKeeps(d: Dl, ops: seq<Op>)
    requires Inv(d) && forall i :: 0 <= i < |ops| ==> WellFormed(ops[i])
    ensures Inv(ExecAll(d, ops))
    decreases |ops|
  {
    if ops != [] {
      RunKeeps(d, ops[..|ops| - 1]);
      ExecKeeps(ExecAll(d, ops[..|ops| - 1]), ops[|ops| - 1]);
    }
  }

  // ----- what holds in every interleaving -----

  ghost predicate Reachable(d: Dl, ops: seq<Op>) {
    d == ExecAll(BOOT, ops) && forall i :: 0 <= i < |ops| ==> WellFormed(ops[i])
  }

  lemma {:induction false} ReachableInv(d: Dl, ops: seq<Op>)
    requires Reachable(d, ops)
    ensures Inv(d)
  {
    hide Inv;
    BootInv();
    RunKeeps(BOOT, ops);
  }

  ghost predicate Waiting(d: Dl, id: nat) {
    exists j :: 0 <= j < |d.busy| && d.busy[j].id == id
  }

  // Every accepted download is in exactly one place: once in the busy list, or once among those done,
  // in the pump's hands and delivered. In particular its callback runs at most once.
  lemma {:induction false} ExactlyOnePlace(d: Dl, ops: seq<Op>, id: nat)
    requires Reachable(d, ops)
    ensures id < d.accepted ==>
              (IdBag(d.done) + IdBag(d.inHand) + IdBag(d.delivered))[id] == if Waiting(d, id) then 0 else 1
    ensures id >= d.accepted ==> !Waiting(d, id) && (IdBag(d.done) + IdBag(d.inHand) + IdBag(d.delivered))[id] == 0
    ensures forall i, j :: 0 <= i < j < |d.busy| ==> d.busy[i].id != d.busy[j].id
    ensures IdBag(d.delivered)[id] <= 1
  {
    ReachableInv(d, ops);
    var left := Left(d);
    if left <= id < d.accepted {
      assert d.busy[id - left].id == id;
    }
  }

  // Downloads leave the busy list in the order they were accepted, one at a time, and only a worker pass
  // moves them.
  lemma {:induction false} FirstInFirstOut(d: Dl, ops: seq<Op>, op: Op)
    requires Reachable(d, ops) && WellFormed(op)
    ensures var d' := Exec(d, op);
            Left(d') == Left(d) || (Left(d') == Left(d) + 1 && op.Work? && d'.done != [] && d'.done[0].id == Left(d))
  {
    hide GoodEntry, StepEntry, AllFinished, IdBag, Range, ExecAll;
    ReachableInv(d, ops);
    match op {
      case Work(io) => assert d.busy != [] ==> d.busy[0].id == Left(d);
      case _ =>
    }
  }

  // The shared socket serves one download: every busy entry behind the head is as it was submitted.
  lemma {:induction false} OneDownloadAtATime(d: Dl, ops: seq<Op>, j: nat)
    requires Reachable(d, ops) && 1 <= j < |d.busy|
    ensures d.busy[j].state == Initial && d.busy[j].status == Starting && d.busy[j].received == []
  {
    ReachableInv(d, ops);
  }

  // No delivered status is Starting or Running, and delivered data is the body of a complete 200 reply.
  lemma {:induction false} DeliveredIsFinal(d: Dl, ops: seq<Op>, j: nat)
    requires Reachable(d, ops) && j < |d.delivered|
    ensures var e := d.delivered[j];
            && e.status != Starting && e.status != Running && e.state == Finished && GoodEntry(e)
            && (Payload(e).Some? ==>
                  var i := FindFrom(e.received, CRLF2, 0);
                  && i + 4 <= |e.received| <= |e.buf|
                  && Payload(e) == Some(e.received[i + 4..])
                  && ParseHeader(HeaderText(e.received, i)) == (200, Some(|Payload(e).value|)))
  {
    ReachableInv(d, ops);
    var e := d.delivered[j];
    if Payload(e).Some? { DeliversTheBody(e); }
  }

  // N_Download reports a positive handle exactly when it accepts the download.
  lemma HandlePositive(d: Dl, url: Text, maxSize: nat, hasCallback: bool, alloc: bool)
    ensures SubmitResult(d, alloc) >= 0
    ensures SubmitResult(d, alloc) > 0 <==> DoSubmit(d, url, maxSize, hasCallback, alloc).accepted == d.accepted + 1
  {
  }

  // ----- handles -----

  ghost predicate NumberedList(s: seq<Entry>) {
    forall i :: 0 <= i < |s| ==> s[i].id < 0x7FFF_FFFF ==> s[i].handle == s[i].id + 1
  }

  // Since the start, handles count the accepted downloads, as long as the counter has not wrapped.
  ghost predicate Numbered(d: Dl) {
    && NumberedList(d.busy) && NumberedList(d.done) && NumberedList(d.inHand) && NumberedList(d.delivered)
    && (d.mode == Off ==> d.handle == 0 && d.admitted == 0 && d.accepted == 0)
    && (d.mode != Off && d.accepted < 0x7FFF_FFFF ==> d.handle == d.accepted + 1)
  }

  lemma NumberedKeeps(d: Dl, op: Op)
    requires Numbered(d) && !op.EndShutDown?
    ensures Numbered(Exec(d, op))
  {
    hide StepEntry, Zeroed;
    if op.Work? && d.busy != [] && d.busy[0].bufPos <= |d.busy[0].buf| {
      StepIdentity(d.busy[0], op.io);
    }
  }

  lemma {:induction false} RunNumbered(ops: seq<Op>)
    requires forall i :: 0 <= i < |ops| ==> !ops[i].EndShutDown?
    ensures Numbered(ExecAll(BOOT, ops))
    decreases |ops|
  {
    hide Exec, Numbered;
    if ops == [] {
      assert Numbered(BOOT) by { BootNumbered(); }
    } else {
      RunNumbered(ops[..|ops| - 1]);
      NumberedKeeps(ExecAll(BOOT, ops[..|ops| - 1]), ops[|ops| - 1]);
    }
  }

  lemma BootNumbered()
    ensures Numbered(BOOT)
  {
  }

  ghost predicate Known(d: Dl, e: Entry) {
    e in d.busy || e in d.done || e in d.inHand || e in d.delivered
  }

  // Without a shutdown that ran to its end, and with at most 2^31 - 1 downloads accepted, different downloads have
  // different handles.
  lemma {:induction false} HandlesDistinct(d: Dl, ops: seq<Op>, e: Entry, f: Entry)
    requires Reachable(d, ops) && (forall i :: 0 <= i < |ops| ==> !ops[i].EndShutDown?) && d.accepted <= 0x7FFF_FFFF
    requires Known(d, e) && Known(d, f)
    ensures e.handle == e.id + 1 && (e.handle == f.handle <==> e.id == f.id)
  {
    hide ExecAll, AllFinished, GoodEntry, Range;
    RunNumbered(ops);
    ReachableInv(d, ops);
    IdBelow(d, e);
    IdBelow(d, f);
  }

  lemma {:induction false} BagHas(s: seq<Entry>, e: Entry)
    requires e in s
    ensures IdBag(s)[e.id] >= 1
  {
    if s[0] != e {
      BagHas(s[1..], e);
    }
  }

  lemma IdBelow(d: Dl, e: Entry)
    requires Inv(d) && Known(d, e)
    ensures e.id < d.accepted
  {
    hide AllFinished, GoodEntry;
    if e in d.done { BagHas(d.done, e); }
    if e in d.inHand { BagHas(d.inHand, e); }
    if e in d.delivered { BagHas(d.delivered, e); }
    if e !in d.busy {
      assert (IdBag(d.done) + IdBag(d.inHand) + IdBag(d.delivered))[e.id] >= 1;
      assert Range(Left(d))[e.id] >= 1;
    }
  }

  // A second start begins with handle 1 again: two pending downloads share it.
  lemma HandleReused(url: Text)
    ensures var submit := Submit(url, 0, false, true);
            var d := ExecAll(BOOT, [Init, Admit, submit, BeginShutDown, EndShutDown, Init, Admit, submit]);
            |d.busy| == 2 && d.busy[0].handle == d.busy[1].handle == 1
  {
    hide Exec, ExecAll;
    var submit := Submit(url, 0, false, true);
    var e, f := NewEntry(0, 1, url, 0, false), NewEntry(1, 1, url, 0, false);
    var a, b := [Init, Admit, submit, BeginShutDown], [EndShutDown, Init, Admit, submit];
    var d := Dl(ShuttingDown, 2, [e], [], [], [], 1, 0);
    FourSteps(BOOT, a);
    FourSteps(d, b);
    Submitted(url);
    Resubmitted(url);
    ExecConcat(BOOT, a, b);
    assert a + b == [Init, Admit, submit, BeginShutDown, EndShutDown, Init, Admit, submit];
  }

  lemma Submitted(url: Text)
    ensures Exec(Exec(Exec(Exec(BOOT, Init), Admit), Submit(url, 0, false, true)), BeginShutDown)
         == Dl(ShuttingDown, 2, [NewEntry(0, 1, url, 0, false)], [], [], [], 1, 0)
  {
    hide NewEntry;
    assert [] + [NewEntry(0, 1, url, 0, false)] == [NewEntry(0, 1, url, 0, false)];
  }

  lemma Resubmitted(url: Text)
    ensures var e := NewEntry(0, 1, url, 0, false);
            var d := Exec(Exec(Dl(ShuttingDown, 2, [e], [], [], [], 1, 0), EndShutDown), Init);
            Exec(Exec(d, Admit), Submit(url, 0, false, true)) == Dl(Idle, 2, [e, NewEntry(1, 1, url, 0, false)], [], [], [], 2, 0)
  {
    hide NewEntry;
  }

  lemma FourSteps(d: Dl, ops: seq<Op>)
    requires |ops| == 4
    ensures ExecAll(d, ops) == Exec(Exec(Exec(Exec(d, ops[0]), ops[1]), ops[2]), ops[3])
  {
    hide Exec;
    assert ops[..3][..2] == ops[..2] && ops[..2][..1] == ops[..1] && ops[..1][..0] == [];
    assert ExecAll(d, ops[..1]) == Exec(ExecAll(d, []), ops[0]);
    assert ExecAll(d, ops[..2]) == Exec(ExecAll(d, ops[..1]), ops[1]);
    assert ExecAll(d, ops[..3]) == Exec(ExecAll(d, ops[..2]), ops[2]);
  }

  lemma {:induction false} ExecConcat(d: Dl, a: seq<Op>, b: seq<Op>)
    ensures ExecAll(d, a + b) == ExecAll(ExecAll(d, a), b)
    decreases |b|
  {
    hide Exec;
    if b == [] {
      assert a + b == a;
    } else {
      var n := |b| - 1;
      assert (a + b)[..|a + b| - 1] == a + b[..n];
      ExecConcat(d, a, b[..n]);
    }
  }
}
