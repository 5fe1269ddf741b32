/** Downloads get through: what a submitted URL, an answering server and a running pump lead to. */
module DownloaderProgress {
  import opened Wrappers
  import opened SStreamSpec
  import opened DownloaderSpec
  import opened DownloaderProtocol

  ghost predicate Operational(d: Dl) {
    d.mode != Off && d.mode != ShuttingDown
  }

  // A pass of the worker moves a finished head to the front of the done list.
  lemma {:induction false} FinishedHeadMoves(d: Dl, ops: seq<Op>, io: Io)
    requires Reachable(d, ops) && Operational(d) && d.busy != [] && d.busy[0].state == Finished
    ensures var d' := Exec(d, Work(io));
            && Left(d') == Left(d) + 1 && d'.done == [d.busy[0]] + d.done && d'.done[0].id == Left(d)
            && d'.busy == d.busy[1..] && d'.inHand == d.inHand && d'.delivered == d.delivered
  {
    hide ExecAll;
    ReachableInv(d, ops);
  }

  // The pump then takes exactly this entry and calls it back.
  lemma {:induction false} FinishedHeadDelivered(d: Dl, ops: seq<Op>, io: Io)
    requires Reachable(d, ops) && Operational(d) && d.busy != [] && d.busy[0].state == Finished
    ensures ExecAll(d, [Work(io), Take, Deliver(|d.inHand|)]).delivered == d.delivered + [d.busy[0]]
    ensures d.busy[0].id == Left(d)
  {
    FinishedHeadMoves(d, ops, io);
    var d1 := Exec(d, Work(io));
    var d2 := Exec(d1, Take);
    ThreeSteps(d, [Work(io), Take, Deliver(|d.inHand|)]);
    assert d1.mode == d.mode;
    assert d2.inHand == d.inHand + [d.busy[0]];
    hide ExecAll;
    assert Exec(d2, Deliver(|d.inHand|)).delivered == d.delivered + [d.busy[0]];
  }

  lemma ThreeSteps(d: Dl, ops: seq<Op>)
    requires |ops| == 3
    ensures ExecAll(d, ops) == Exec(Exec(Exec(d, ops[0]), ops[1]), ops[2])
  {
    hide Exec;
    assert ops[..2][..1] == ops[..1] && ops[..1][..0] == [];
    assert ExecAll(d, ops[..1]) == Exec(ExecAll(d, []), ops[0]);
    assert ExecAll(d, ops[..2]) == Exec(ExecAll(d, ops[..1]), ops[1]);
  }

  // ----- the worker -----

  // What the network answers in the passes of a run.
  function Passes(ops: seq<Op>): (ios: seq<Io>)
    ensures |ios| <= |ops|
  {
    if ops == [] then []
    else
      var op := ops[|ops| - 1];
      Passes(ops[..|ops| - 1]) + if op.Work? then [op.io] else []
  }

  // An entry after some passes.
  function StepAll(e: Entry, ios: seq<Io>): (r: Entry)
    requires e.bufPos <= |e.buf|
    ensures r.bufPos <= |r.buf|
    decreases |ios|
  {
    if ios == [] then e
    else
      var u := StepAll(e, ios[..|ios| - 1]);
      StepIdentity(u, ios[|ios| - 1]);
      StepBounded(u, ios[|ios| - 1]);
      StepEntry(u, ios[|ios| - 1])
  }

  lemma StepBounded(e: Entry, io: Io)
    requires e.bufPos <= |e.buf|
    ensures StepEntry(e, io).bufPos <= |StepEntry(e, io).buf|
  {
    hide ScanHeader;
    if e.state == WaitReply && |io.bytes| == io.nread && e.bufPos + |io.bytes| <= |e.buf| {
      ScanFrame(Stored(e, io.bytes));
    }
  }

  // Not finished before the last of these passes.
  ghost predicate Underway(e: Entry, ios: seq<Io>)
    requires e.bufPos <= |e.buf|
  {
    forall k :: 0 <= k < |ios| ==> StepAll(e, ios[..k]).state != Finished
  }

  ghost predicate NoShutdown(ops: seq<Op>) {
    forall i :: 0 <= i < |ops| ==> !ops[i].BeginShutDown? && WellFormed(ops[i])
  }

  // Whatever clients and pump do meanwhile, the head of the busy list goes through the worker's passes.
  lemma {:induction false} HeadFollowsPasses(d: Dl, ops: seq<Op>)
    requires Inv(d) && Operational(d) && d.busy != [] && NoShutdown(ops)
    requires d.busy[0].bufPos <= |d.busy[0].buf| && Underway(d.busy[0], Passes(ops))
    ensures var d' := ExecAll(d, ops);
            && Inv(d') && Operational(d') && Left(d') == Left(d)
            && d'.busy != [] && d'.busy[0] == StepAll(d.busy[0], Passes(ops))
    decreases |ops|
  {
    hide Inv, Exec, StepEntry, StepAll, Underway;
    var e := d.busy[0];
    StepAllNone(e);
    if ops != [] {
      var n := |ops| - 1;
      var init, op := ops[..n], ops[n];
      UnderwayBefore(e, ops);
      HeadFollowsPasses(d, init);
      ExecKeeps(ExecAll(d, init), op);
      HeadStep(ExecAll(d, init), op);
      if op.Work? { StepAllOnce(e, Passes(init), op.io); }
    }
  }

  lemma StepAllNone(e: Entry)
    requires e.bufPos <= |e.buf|
    ensures StepAll(e, []) == e
  {
  }

  lemma UnderwayBefore(e: Entry, ops: seq<Op>)
    requires e.bufPos <= |e.buf| && ops != [] && Underway(e, Passes(ops))
    ensures var init, op := ops[..|ops| - 1], ops[|ops| - 1];
            && Underway(e, Passes(init))
            && Passes(ops) == (if op.Work? then Passes(init) + [op.io] else Passes(init))
            && (op.Work? ==> StepAll(e, Passes(init)).state != Finished)
  {
    hide StepEntry, StepAll;
    var ios := Passes(ops[..|ops| - 1]);
    forall k | 0 <= k < |ios| ensures StepAll(e, ios[..k]).state != Finished {
      assert Passes(ops)[..k] == ios[..k];
    }
    assert Passes(ops)[..|ios|] == ios;
  }

  lemma StepAllOnce(e: Entry, ios: seq<Io>, io: Io)
    requires e.bufPos <= |e.buf|
    ensures StepAll(e, ios + [io]) == StepEntry(StepAll(e, ios), io)
  {
    assert (ios + [io])[..|ios|] == ios;
  }

  // Only a pass of the worker touches the head.
  lemma HeadStep(d: Dl, op: Op)
    requires Operational(d) && d.busy != [] && d.busy[0].bufPos <= |d.busy[0].buf| && !op.BeginShutDown?
    requires op.Work? ==> d.busy[0].state != Finished
    ensures var d' := Exec(d, op);
            && Operational(d') && Left(d') == Left(d) && d'.busy != []
            && d'.busy[0] == if op.Work? then StepEntry(d.busy[0], op.io) else d.busy[0]
  {
    hide StepEntry, NewEntry, HandleAfter, NextHandle;
  }

  // ----- a server that answers -----

  // A pass in which connecting, the handshake and sending succeed.
  const OPEN: Io := Io(true, 1, true, true, 0, [])

  function Replies(chunks: seq<Text>): (ios: seq<Io>)
    ensures |ios| == |chunks|
  {
    seq(|chunks|, k requires 0 <= k < |chunks| => Chunk(chunks[k]))
  }

  // Connect and send, with a handshake between them for TLS.
  function Opening(url: Text): (ios: seq<Io>)
    ensures |ios| == if HTTPS <= url then 3 else 2
  {
    if HTTPS <= url then [OPEN, OPEN, OPEN] else [OPEN, OPEN]
  }

  ghost predicate SameDownload(e: Entry, f: Entry) {
    e.id == f.id && e.handle == f.handle && e.url == f.url && e.hasCallback == f.hasCallback && |e.buf| == |f.buf|
  }

  // The bytes of the two schemes.
  lemma Schemes()
    ensures |HTTP| == |"http://"| && forall i :: 0 <= i < |HTTP| ==> HTTP[i] == "http://"[i] as int
    ensures |HTTPS| == |"https://"| && forall i :: 0 <= i < |HTTPS| ==> HTTPS[i] == "https://"[i] as int
  {
  }

  // A connected http URL goes on without TLS and a connected https URL with it; anything else has failed.
  lemma Connected(e: Entry, io: Io)
    requires e.state == Initial && e.bufPos <= |e.buf|
    ensures var r := StepEntry(e, io);
            && (r.state == TcpConnected <==> io.connected && HTTP <= e.url)
            && (r.state == SslHandshake <==> io.connected && HTTPS <= e.url)
            && (r.state == TcpConnected || r.state == SslHandshake ==>
                  r.status == Starting && (r.ssl <==> HTTPS <= e.url))
            && (r.state == TcpConnected || r.state == SslHandshake || (r.state == Finished && r.status == Failed))
  {
    assert HTTP[4] == 58 && HTTPS[4] == 115;
  }

  lemma Opened(e: Entry)
    requires e.state == Initial && GoodEntry(e) && (HTTP <= e.url || HTTPS <= e.url)
    ensures var r := StepAll(e, Opening(e.url));
            && r.state == WaitReply && r.status == Running && r.received == [] && GoodEntry(r) && SameDownload(e, r)
            && (r.ssl <==> HTTPS <= e.url)
    ensures Underway(e, Opening(e.url))
  {
    hide ReadResponse, Reflects;
    var ios := Opening(e.url);
    StepKeeps(e, OPEN);
    Connected(e, OPEN);
    var e1 := StepEntry(e, OPEN);
    StepKeeps(e1, OPEN);
    var e2 := StepEntry(e1, OPEN);
    StepKeeps(e2, OPEN);
    assert ios[..0] == [] && ios[..1] == [OPEN] && ios[..2] == [OPEN, OPEN];
    FewSteps(e, OPEN);
  }

  lemma FewSteps(e: Entry, io: Io)
    requires e.bufPos <= |e.buf|
    ensures StepAll(e, []) == e && StepAll(e, [io]) == StepEntry(e, io)
    ensures var u := StepEntry(e, io);
            && u.bufPos <= |u.buf| && StepAll(e, [io, io]) == StepEntry(u, io)
            && var v := StepEntry(u, io); v.bufPos <= |v.buf| && StepAll(e, [io, io, io]) == StepEntry(v, io)
  {
    hide StepEntry;
    StepAllOnce(e, [], io);
    StepAllOnce(e, [io], io);
    StepAllOnce(e, [io, io], io);
    assert [] + [io] == [io] && [io] + [io] == [io, io] && [io, io] + [io] == [io, io, io];
    StepBounded(e, io);
    StepBounded(StepEntry(e, io), io);
  }

  lemma {:induction false} StepAllConcat(e: Entry, a: seq<Io>, b: seq<Io>)
    requires e.bufPos <= |e.buf|
    ensures StepAll(e, a + b) == StepAll(StepAll(e, a), b)
    decreases |b|
  {
    hide StepEntry;
    if b == [] {
      assert a + b == a;
    } else {
      var n := |b| - 1;
      assert a + b == (a + b[..n]) + [b[n]] && b == b[..n] + [b[n]];
      StepAllConcat(e, a, b[..n]);
      StepAllOnce(e, a + b[..n], b[n]);
      StepAllOnce(StepAll(e, a), b[..n], b[n]);
    }
  }

  // Reading pieces of a reply are passes of the worker.
  lemma {:induction false} ReadAllPasses(e: Entry, chunks: seq<Text>)
    requires e.state == WaitReply && GoodEntry(e) && e.received == [] && e.status == Running
    requires (forall k :: 0 <= k < |chunks| ==> chunks[k] != []) && |Concat(chunks)| <= |e.buf|
    ensures StepAll(e, Replies(chunks)) == ReadAll(e, chunks) && StepAll(e, Replies(chunks)).state == WaitReply
    decreases |chunks|
  {
    hide ReadResponse, Reflects, GoodEntry;
    EntryBounded(e);
    SplitIndependent(e, chunks);
    if chunks != [] {
      var n := |chunks| - 1;
      ReadAllPasses(e, chunks[..n]);
      assert Replies(chunks) == Replies(chunks[..n]) + [Chunk(chunks[n])];
      StepAllOnce(e, Replies(chunks[..n]), Chunk(chunks[n]));
    }
  }

  lemma {:induction false} ConcatPrefix(chunks: seq<Text>, k: nat)
    requires k <= |chunks|
    ensures |Concat(chunks[..k])| <= |Concat(chunks)|
    decreases |chunks|
  {
    if k == |chunks| {
      assert chunks[..k] == chunks;
    } else {
      assert chunks[..|chunks| - 1][..k] == chunks[..k];
      ConcatPrefix(chunks[..|chunks| - 1], k);
    }
  }

  // All passes of a download: opening, the pieces of the reply and the end of the stream.
  function Script(url: Text, chunks: seq<Text>): (ios: seq<Io>)
    ensures |ios| == |chunks| + if HTTPS <= url then 4 else 3
  {
    Opening(url) + Replies(chunks) + [EOF]
  }

  lemma {:induction false} Answered(e: Entry, chunks: seq<Text>, reply: Text)
    requires e.state == Initial && GoodEntry(e) && (HTTP <= e.url || HTTPS <= e.url)
    requires (forall k :: 0 <= k < |chunks| ==> chunks[k] != []) && Concat(chunks) == Fitting(reply, |e.buf|)
    ensures var r := StepAll(e, Script(e.url, chunks));
            && r.state == Finished && SameDownload(e, r) && r.received == Fitting(reply, |e.buf|)
            && r.status == FinalStatus(Fitting(reply, |e.buf|), |e.buf|)
    ensures Underway(e, Script(e.url, chunks))
  {
    hide GoodEntry, ReadResponse, Reflects, FinalStatus, Fitting, StepAll, ReadAll, Opening, Replies, Concat;
    EntryBounded(e);
    Opened(e);
    var ios, w := Opening(e.url), StepAll(e, Opening(e.url));
    ReadAllPasses(w, chunks);
    WholeReply(w, chunks, reply);
    StepAllConcat(e, ios, Replies(chunks));
    StepAllOnce(e, ios + Replies(chunks), EOF);
    assert StepEntry(StepAll(w, Replies(chunks)), EOF) == ReadResponse(ReadAll(w, chunks), EOF);
    StepAllSame(w, Replies(chunks) + [EOF]);
    StepAllOnce(w, Replies(chunks), EOF);
    forall k | 0 <= k < |Script(e.url, chunks)| ensures StepAll(e, Script(e.url, chunks)[..k]).state != Finished {
      UnderwayAt(e, w, chunks, k);
    }
  }

  lemma UnderwayAt(e: Entry, w: Entry, chunks: seq<Text>, k: nat)
    requires e.bufPos <= |e.buf| && w == StepAll(e, Opening(e.url)) && Underway(e, Opening(e.url))
    requires w.state == WaitReply && GoodEntry(w) && w.received == [] && w.status == Running
    requires (forall j :: 0 <= j < |chunks| ==> chunks[j] != []) && |Concat(chunks)| <= |w.buf|
    requires k < |Script(e.url, chunks)|
    ensures StepAll(e, Script(e.url, chunks)[..k]).state != Finished
  {
    hide GoodEntry, StepAll, Opening, Concat;
    var ios := Opening(e.url);
    var m := |ios|;
    if k < m {
      assert Script(e.url, chunks)[..k] == ios[..k];
    } else {
      assert Script(e.url, chunks)[..k] == ios + Replies(chunks[..k - m]);
      ConcatPrefix(chunks, k - m);
      ReadAllPasses(w, chunks[..k - m]);
      StepAllConcat(e, ios, Replies(chunks[..k - m]));
    }
  }

  lemma EntryBounded(e: Entry)
    requires GoodEntry(e)
    ensures e.bufPos <= |e.buf|
  {
  }

  lemma {:induction false} StepAllSame(e: Entry, ios: seq<Io>)
    requires e.bufPos <= |e.buf|
    ensures SameDownload(e, StepAll(e, ios))
    decreases |ios|
  {
    hide StepEntry;
    if ios != [] {
      StepAllSame(e, ios[..|ios| - 1]);
      StepIdentity(StepAll(e, ios[..|ios| - 1]), ios[|ios| - 1]);
    }
  }

  // A head whose connection and request succeed and whose reply comes in n pieces, then ends, is called back
  // after n + 4 passes of the worker, n + 5 with TLS, whatever clients and pump do in between.
  lemma {:induction false} DeliveredWithin(d: Dl, before: seq<Op>, ops: seq<Op>, chunks: seq<Text>, reply: Text, io: Io)
    requires Reachable(d, before) && Operational(d) && NoShutdown(ops)
    requires d.busy != [] && d.busy[0].state == Initial && (HTTP <= d.busy[0].url || HTTPS <= d.busy[0].url)
    requires forall k :: 0 <= k < |chunks| ==> chunks[k] != []
    requires var e := d.busy[0]; Concat(chunks) == Fitting(reply, |e.buf|) && Passes(ops) == Script(e.url, chunks)
    ensures |Passes(ops)| + 1 == |chunks| + if HTTPS <= d.busy[0].url then 5 else 4
    ensures var e, u := d.busy[0], ExecAll(d, ops);
            var s := ExecAll(u, [Work(io), Take, Deliver(|u.inHand|)]);
            && |s.delivered| == |u.delivered| + 1 && s.delivered[..|u.delivered|] == u.delivered
            && var r := s.delivered[|u.delivered|];
               && SameDownload(e, r) && r.state == Finished && r.received == Fitting(reply, |e.buf|)
               && r.status == FinalStatus(Fitting(reply, |e.buf|), |e.buf|)
  {
    hide Inv, GoodEntry, Queue, Underway, StepAll, Script, FinalStatus, Fitting, ExecAll;
    var e, u := d.busy[0], ExecAll(d, ops);
    ReachableInv(d, before);
    HeadGood(d);
    Answered(e, chunks, reply);
    HeadFollowsPasses(d, ops);
    ReachedFurther(d, before, ops);
    FinishedHeadDelivered(u, before + ops, io);
  }

  lemma HeadGood(d: Dl)
    requires Inv(d) && d.busy != []
    ensures GoodEntry(d.busy[0]) && d.busy[0].bufPos <= |d.busy[0].buf|
  {
  }

  lemma ReachedFurther(d: Dl, before: seq<Op>, ops: seq<Op>)
    requires Reachable(d, before) && NoShutdown(ops)
    ensures Reachable(ExecAll(d, ops), before + ops)
  {
    hide ExecAll;
    ExecConcat(BOOT, before, ops);
  }

  // From the very start: the first download that is submitted is called back first, with the handle 1 that
  // N_Download returned, as the download it was submitted as.
  lemma {:induction false} FirstDownload(url: Text, maxSize: nat, hasCallback: bool, ops: seq<Op>, chunks: seq<Text>, reply: Text, io: Io)
    requires maxSize < 0x1_0000_0000 && (HTTP <= url || HTTPS <= url) && NoShutdown(ops)
    requires forall k :: 0 <= k < |chunks| ==> chunks[k] != []
    requires Concat(chunks) == Fitting(reply, maxSize) && Passes(ops) == Script(url, chunks)
    ensures var d := ExecAll(BOOT, [Init, Admit, Submit(url, maxSize, hasCallback, true)]);
            var u := ExecAll(d, ops);
            var s := ExecAll(u, [Work(io), Take, Deliver(|u.inHand|)]);
            && |s.delivered| == |u.delivered| + 1
            && var r := s.delivered[|u.delivered|];
               && r.id == 0 && r.handle == 1 && r.url == url && r.hasCallback == hasCallback && |r.buf| == maxSize
               && r.received == Fitting(reply, maxSize) && r.status == FinalStatus(Fitting(reply, maxSize), maxSize)
  {
    var start := [Init, Admit, Submit(url, maxSize, hasCallback, true)];
    var d := ExecAll(BOOT, start);
    ThreeSteps(BOOT, start);
    hide ExecAll, StepAll, Passes, Script, Fitting, FinalStatus, Concat;
    assert d.busy == [NewEntry(0, 1, url, maxSize, hasCallback)] && d.mode == Idle;
    DeliveredWithin(d, start, ops, chunks, reply, io);
  }

  // ----- the pump -----

  function Takes(ops: seq<Op>): nat {
    if ops == [] then 0 else Takes(ops[..|ops| - 1]) + if ops[|ops| - 1].Take? then 1 else 0
  }

  ghost predicate Taken(d: Dl, e: Entry) {
    e in d.inHand || e in d.delivered
  }

  lemma TakenStays(d: Dl, op: Op, e: Entry)
    requires Taken(d, e)
    ensures Taken(Exec(d, op), e)
  {
    hide StepEntry, NewEntry;
    if op.Deliver? && op.k < |d.inHand| && e in d.inHand {
      var i :| 0 <= i < |d.inHand| && d.inHand[i] == e;
      var d' := Exec(d, op);
      if i < op.k {
        assert d'.inHand[i] == e;
      } else if i > op.k {
        assert d'.inHand[i - 1] == e;
      } else {
        assert d'.delivered[|d.delivered|] == e;
      }
    }
  }

  // The done list is a stack: a take brings an entry forward, a download that finishes meanwhile puts it back.
  lemma {:induction false} DonePosition(d: Dl, ops: seq<Op>, k: nat) returns (k': int)
    requires k < |d.done| && d.mode != Off && forall i :: 0 <= i < |ops| ==> !ops[i].EndShutDown?
    ensures var d' := ExecAll(d, ops);
            && d'.mode != Off
            && (Taken(d', d.done[k])
                || (0 <= k' < |d'.done| && d'.done[k'] == d.done[k] && k' == k + (Left(d') - Left(d)) - Takes(ops)))
    decreases |ops|
  {
    k' := k;
    if ops != [] {
      hide StepEntry, NewEntry;
      var n := |ops| - 1;
      var u, op := ExecAll(d, ops[..n]), ops[n];
      k' := DonePosition(d, ops[..n], k);
      if Taken(u, d.done[k]) {
        TakenStays(u, op, d.done[k]);
      } else {
        var j := k';
        k' := if op.Take? then j - 1 else j + Left(Exec(u, op)) - Left(u);
        DoneStep(u, op, j);
      }
    }
  }

  lemma DoneStep(d: Dl, op: Op, k: nat)
    requires k < |d.done| && d.mode != Off && !op.EndShutDown?
    ensures var d' := Exec(d, op);
            && d'.mode != Off
            && (if op.Take? then
                  Left(d') == Left(d)
                  && if k == 0 then Taken(d', d.done[k]) else k - 1 < |d'.done| && d'.done[k - 1] == d.done[k]
                else
                  var i := k + Left(d') - Left(d); 0 <= i < |d'.done| && d'.done[i] == d.done[k])
  {
    hide StepEntry, NewEntry;
    if op.Take? && k == 0 {
      assert Exec(d, op).inHand[|d.inHand|] == d.done[0];
    }
  }

  // A finished download is taken once there were more calls of the pump than downloads in front of it,
  // counting those that finish meanwhile.
  lemma {:induction false} TakenWithin(d: Dl, ops: seq<Op>, k: nat)
    requires k < |d.done| && d.mode != Off && forall i :: 0 <= i < |ops| ==> !ops[i].EndShutDown?
    requires Takes(ops) > k + (Left(ExecAll(d, ops)) - Left(d))
    ensures Taken(ExecAll(d, ops), d.done[k])
  {
    var k' := DonePosition(d, ops, k);
  }

  // Shutting down stops admissions and the worker.
  lemma ShutdownHalts(d: Dl, io: Io)
    requires d.mode == Idle
    ensures var s := Exec(d, BeginShutDown);
            && Exec(s, Work(io)) == s && Exec(s, Admit) == s && Exec(s, EndShutDown).mode == Off
            && Exec(Exec(s, EndShutDown), Take) == Exec(s, EndShutDown)
  {
  }
}
