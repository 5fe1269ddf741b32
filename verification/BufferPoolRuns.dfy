/** Whole sessions of client calls on a buffer pool, against an array of pages. */
module BufferPoolRuns {
  import opened Wrappers
  import opened FileSystem
  import opened BufferPoolSpec
  import opened BufferPool

  datatype Op = Load(p: nat) | Write(at: nat, offset: nat, src: seq<Byte>) | Alloc | FlushAll

  datatype Out =
    | Data(bytes: Page)              // the load succeeded and the client saw these bytes
    | Refused                        // the call failed and left no trace
    | Done                           // the write or flush was carried out
    | Fresh(id: nat, bytes: Page)    // a new page, loaded
    | FreshUnloaded                  // the file grew but the load of the new page failed

  // An array of pages: the state after a call, or None for an answer it cannot give.
  function Step(v: Store, op: Op, out: Out): Option<Store> {
    match (op, out)
    case (Load(p), Data(b)) => if p < |v.pages| && b == v.pages[p] then Some(v) else None
    case (Write(p, offset, src), Done) =>
      if p < |v.pages| && offset + |src| <= |v.pages[p]| then Some(Patched(v, p, offset, src)) else None
    case (Alloc, Fresh(id, b)) =>
      if |v.tail| < PAGE && id == |v.pages| % PAGE_IDS && b == Grown(v).pages[id] then Some(Grown(v)) else None
    case (Alloc, FreshUnloaded) => if |v.tail| < PAGE then Some(Grown(v)) else None
    case (FlushAll, Done) => Some(v)
    case (FlushAll, Refused) => None
    case (_, Refused) => Some(v)
    case (_, _) => None
  }

  // The state an array of pages is in after giving these answers, or None if it could not have given them.
  function Run(v: Store, ops: seq<Op>, outs: seq<Out>): Option<Store>
    requires |ops| == |outs|
  {
    if ops == [] then Some(v)
    else
      var n := |ops| - 1;
      match Run(v, ops[..n], outs[..n])
      case None => None
      case Some(u) => Step(u, ops[n], outs[n])
  }

  lemma ExtendRun(v: Store, ops: seq<Op>, outs: seq<Out>, u: Store, op: Op, out: Out)
    requires |ops| == |outs| && Run(v, ops, outs) == Some(u)
    ensures Run(v, ops + [op], outs + [out]) == Step(u, op, out)
  {
    assert (ops + [op])[..|ops|] == ops && (outs + [out])[..|ops|] == outs;
  }

  // Part of a run is a run.
  lemma {:induction false} RunPrefix(v: Store, ops: seq<Op>, outs: seq<Out>, k: nat)
    requires k <= |ops| == |outs| && Run(v, ops, outs).Some?
    ensures Run(v, ops[..k], outs[..k]).Some?
    decreases |ops|
  {
    var n := |ops| - 1;
    if k == |ops| {
      assert ops[..k] == ops && outs[..k] == outs;
    } else {
      assert ops[..n][..k] == ops[..k] && outs[..n][..k] == outs[..k];
      RunPrefix(v, ops[..n], outs[..n], k);
    }
  }

  lemma RunStep(v: Store, ops: seq<Op>, outs: seq<Out>, k: nat)
    requires k < |ops| == |outs| && Run(v, ops, outs).Some?
    ensures Run(v, ops[..k], outs[..k]).Some?
    ensures Run(v, ops[..k + 1], outs[..k + 1]) == Step(Run(v, ops[..k], outs[..k]).value, ops[k], outs[k])
    ensures Run(v, ops[..k + 1], outs[..k + 1]).Some?
  {
    RunPrefix(v, ops, outs, k);
    RunPrefix(v, ops, outs, k + 1);
    assert ops[..k + 1][..k] == ops[..k] && outs[..k + 1][..k] == outs[..k];
  }

  // What decides a call besides the contents: the slots, the page count, the counter and the faults so far.
  datatype Moment = Moment(slots: seq<Slot>, nPages: nat, clockCursor: nat, faults: nat)

  ghost function Now(pool: BufferPool): Moment
    reads pool, pool.pages, pool.file
  {
    Moment(pool.pages[..], pool.nPages, pool.clockCursor, pool.file.faults)
  }

  // A page can be had if it is loaded already or a slot can be freed for it.
  ghost predicate Room(op: Op, m: Moment) {
    match op
    case Load(p) => p < m.nPages && (Find(m.slots, p) < |m.slots| || !NoRoom(m.slots, m.nPages))
    case Write(p, _, _) => Find(m.slots, p) < |m.slots|
    case Alloc => Find(m.slots, m.nPages % PAGE_IDS) < |m.slots| || !NoRoom(m.slots, m.nPages + 1)
    case FlushAll => true
  }

  // Without a fault a call is refused, or a new page left unloaded, exactly for lack of room.
  ghost predicate Answered(op: Op, out: Out, before: Moment, after: Moment) {
    && before.faults <= after.faults
    && (before.faults == after.faults && Predictable(before.clockCursor, before.slots) ==>
          (out == Refused || out == FreshUnloaded <==> !Room(op, before)))
  }

  // One client call.
  method Call(pool: BufferPool, op: Op) returns (out: Out)
    requires pool.Valid() && (pool.nPages + 1) * PAGE < U32
    requires (op.Load? ==> op.p < PAGE_IDS) && (op.Write? ==> op.offset + |op.src| <= PAGE)
    modifies pool, pool.pages, pool.frames, pool.file
    ensures pool.Valid() && old(pool.nPages) <= pool.nPages <= old(pool.nPages) + 1
    ensures Step(old(pool.Contents()), op, out) == Some(pool.Contents())
    ensures Answered(op, out, old(Now(pool)), Now(pool))
  {
    hide NoRoom, Predictable, Find;
    out := Refused;
    match op {
      case Load(p) =>
        var ok, frame := pool.LoadPage(p);
        if ok { out := Data(pool.frames[frame]); }
      case Write(p, offset, src) =>
        var ok := pool.ClientWrite(p, offset, src);
        if ok { out := Done; }
      case Alloc =>
        var before := pool.nPages;
        var ok, id, frame := pool.AllocPage();
        if ok {
          out := Fresh(id, pool.frames[frame]);
        } else if pool.nPages > before {
          out := FreshUnloaded;
        }
      case FlushAll =>
        pool.Flush();
        out := Done;
    }
  }

  // Every session of the pool, with any faults in it, is a session of the array of pages it started as.
  method Session(pool: BufferPool, ops: seq<Op>) returns (outs: seq<Out>, ghost at: seq<Moment>)
    requires pool.Valid() && (pool.nPages + |ops|) * PAGE < U32
    requires forall k :: 0 <= k < |ops| ==>
               (ops[k].Load? ==> ops[k].p < PAGE_IDS) && (ops[k].Write? ==> ops[k].offset + |ops[k].src| <= PAGE)
    modifies pool, pool.pages, pool.frames, pool.file
    ensures pool.Valid() && |outs| == |ops|
    ensures Run(old(pool.Contents()), ops, outs) == Some(pool.Contents())
    ensures |at| == |ops| + 1 && at[0] == old(Now(pool)) && at[|ops|] == Now(pool)
    ensures forall k :: 0 <= k < |ops| ==> Answered(ops[k], outs[k], at[k], at[k + 1])
  {
    hide Answered;
    ghost var v := pool.Contents();
    outs, at := [], [Now(pool)];
    for k := 0 to |ops|
      invariant pool.Valid() && |outs| == k && pool.nPages <= old(pool.nPages) + k
      invariant Run(v, ops[..k], outs) == Some(pool.Contents())
      invariant |at| == k + 1 && at[0] == old(Now(pool)) && at[k] == Now(pool)
      invariant forall i :: 0 <= i < k ==> Answered(ops[i], outs[i], at[i], at[i + 1])
    {
      ghost var u := pool.Contents();
      var out := Call(pool, ops[k]);
      ExtendRun(v, ops[..k], outs, u, ops[k], out);
      assert ops[..k] + [ops[k]] == ops[..k + 1];
      outs, at := outs + [out], at + [Now(pool)];
    }
    assert ops[..|ops|] == ops;
  }

  // A load of an existing page that gives up without a fault leaves every slot clean and unaccessed, so the
  // next load of any existing page succeeds. The clock counter must not cut a turn of the two loads short.
  method LoadTwice(pool: BufferPool, p: nat, q: nat) returns (first: bool, second: bool)
    requires pool.Valid() && p < pool.nPages && q < pool.nPages < PAGE_IDS
    requires pool.pages.Length > 0
    requires FullTurns(pool.clockCursor, pool.pages.Length, DirtyCount(pool.pages[..]) + 2)
    modifies pool`clockCursor, pool.pages, pool.frames, pool.file
    ensures pool.Valid() && pool.Contents() == old(pool.Contents())
    ensures pool.file.faults == old(pool.file.faults) ==> first || second
  {
    hide FullTurns, DirtyCount;
    var frame;
    ghost var n, dirty := pool.pages.Length, DirtyCount(pool.pages[..]);
    FewerTurns(pool.clockCursor, n, dirty + 2, dirty + 1);
    first, frame := pool.LoadPage(p);
    DirtyCountZero(pool.pages[..]);
    second, frame := pool.LoadPage(q);
  }

  ghost predicate WritesTo(op: Op, out: Out, p: nat) {
    op.Write? && op.at == p && out == Done
  }

  lemma StepElsewhere(v: Store, op: Op, out: Out, p: nat)
    requires p < |v.pages| && !WritesTo(op, out, p) && Step(v, op, out).Some?
    ensures p < |Step(v, op, out).value.pages| && Step(v, op, out).value.pages[p] == v.pages[p]
  {
  }

  lemma {:induction false} Untouched(v: Store, ops: seq<Op>, outs: seq<Out>, p: nat, i: nat, j: nat)
    requires i <= j <= |ops| == |outs| && Run(v, ops, outs).Some?
    requires Run(v, ops[..i], outs[..i]).Some? && p < |Run(v, ops[..i], outs[..i]).value.pages|
    requires forall k :: i <= k < j ==> !WritesTo(ops[k], outs[k], p)
    ensures var w := Run(v, ops[..j], outs[..j]);
            w.Some? && p < |w.value.pages| && w.value.pages[p] == Run(v, ops[..i], outs[..i]).value.pages[p]
    decreases j
  {
    hide Run, Step, WritesTo;
    if i < j {
      Untouched(v, ops, outs, p, i, j - 1);
      RunStep(v, ops, outs, j - 1);
      StepElsewhere(Run(v, ops[..j - 1], outs[..j - 1]).value, ops[j - 1], outs[j - 1], p);
    }
  }

  // In every session a load returns the bytes of the last write to its page, whatever was loaded,
  // evicted, written back, allocated or failed in between.
  lemma ReadsLastWrite(v: Store, ops: seq<Op>, outs: seq<Out>, p: nat, i: nat, j: nat)
    requires i < j < |ops| == |outs| && Run(v, ops, outs).Some?
    requires WritesTo(ops[i], outs[i], p)
    requires forall k :: i < k < j ==> !WritesTo(ops[k], outs[k], p)
    requires ops[j] == Load(p) && outs[j].Data?
    ensures var w, b := ops[i], outs[j].bytes;
            w.offset + |w.src| <= |b| && b[w.offset..w.offset + |w.src|] == w.src
  {
    hide Run;
    var w := ops[i];
    RunStep(v, ops, outs, i);
    var before := Run(v, ops[..i], outs[..i]).value;
    var after := Patched(before, p, w.offset, w.src);
    assert after.pages[p][w.offset..w.offset + |w.src|] == w.src;
    Untouched(v, ops, outs, p, i + 1, j);
    RunStep(v, ops, outs, j);
  }
}
