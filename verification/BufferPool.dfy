/** The clock-replacement page cache of buffer_pool.c. */
module BufferPool {
  import opened FileSystem
  import opened BufferPoolSpec
  import opened Cyclic

  const U32: nat := 0x1_0000_0000

  // The slot under the clock hand k steps after the unsigned counter stood at c.
  function Hand(c: nat, k: nat, n: nat): (i: nat)
    requires n > 0
    ensures i < n
  {
    (c + k) % U32 % n
  }

  // The counter's wrap-around does not cut one of the next `turns` turns short.
  predicate FullTurns(c: nat, n: nat, turns: nat)
  {
    n > 0 ==> U32 % n == 0 || c + turns * n <= U32
  }

  // Incrementing an unsigned counter.
  lemma NextCursor(c: nat, n: nat)
    requires c < U32 && n < PAGE_IDS
    ensures ((c + n) % U32 + 1) % U32 == (c + n + 1) % U32
  {
    if c + n >= U32 {
      assert (c + n) % U32 == c + n - U32;
      assert (c + n + 1) % U32 == c + n + 1 - U32;
    }
  }

  lemma TurnsLeft(c: nat, n: nat, turns: nat)
    requires c < U32 && turns > 0 && FullTurns(c, n, turns + 1)
    ensures FullTurns(c, n, 1) && FullTurns((c + n) % U32, n, turns)
  {
    assert (turns + 1) * n == turns * n + n;
    assert turns * n >= n;
  }

  lemma OneOf(c: nat, n: nat, turns: nat)
    requires turns > 0 && FullTurns(c, n, turns)
    ensures FullTurns(c, n, 1)
  {
    assert turns * n >= n;
  }

  lemma FewerTurns(c: nat, n: nat, turns: nat, fewer: nat)
    requires FullTurns(c, n, turns) && fewer <= turns
    ensures FullTurns(c, n, fewer)
  {
    assert turns * n == fewer * n + (turns - fewer) * n;
  }

  // The wrap-around of the clock counter does not cut a turn short while every dirty page is written back.
  ghost predicate Predictable(c: nat, slots: seq<Slot>)
  {
    FullTurns(c, |slots|, DirtyCount(slots) + 1)
  }

  // With more page ids than 16 bits can tell apart, the page that the sentinel names is the only one that is
  // ever written back: every slot is dirty, and this page is not among them.
  ghost predicate Stuck(slots: seq<Slot>, nPages: nat)
  {
    && nPages >= PAGE_IDS && !DirtyPageId(slots, nPages % PAGE_IDS, nPages)
    && forall i :: 0 <= i < |slots| ==> slots[i].dirty
  }

  // One page more makes the difference. A dirty, unaccessed slot alone is written back and reused with 65535
  // pages in the file, and stays as it is with 65536; and so it is for two slots in use, one of them dirty.
  lemma SentinelInput()
    ensures var slots := [Slot(0, 1, false, true, true)];
            Predictable(0, slots) && !NoRoom(slots, 65535) && NoRoom(slots, 65536) && Stuck(slots, 65536)
    ensures var slots := [Slot(0, 1, true, true, true), Slot(1, 2, true, false, true)];
            Predictable(0, slots) && !NoRoom(slots, 65535) && NoRoom(slots, 65536) && !OutOfRoom(slots)
  {
    var one := [Slot(0, 1, false, true, true)];
    assert one[1..] == [] && DirtyCount(one) == 1;
    assert Find(one, 0) == 1;
    var two := [Slot(0, 1, true, true, true), Slot(1, 2, true, false, true)];
    assert two[1..] == [Slot(1, 2, true, false, true)] && two[1..][1..] == [];
    assert DirtyCount(two[1..]) == 0 && DirtyCount(two) == 1;
    assert Find(two, 0) == 2;
  }

  // A stuck pool has no room, and stays stuck even when the counter wraps.
  lemma StuckHasNoRoom(slots: seq<Slot>, nPages: nat)
    requires Stuck(slots, nPages)
    ensures NoRoom(slots, nPages)
  {
  }

  // Wrapping the counter is harmless when the number of slots divides its range.
  lemma WrapHarmless(x: nat, n: nat)
    requires n > 0 && U32 % n == 0 && U32 <= x < 2 * U32
    ensures x % U32 % n == x % n
  {
    var t := U32 / n;
    assert U32 == n * t + U32 % n;
    WholeTurns(x - U32, n, t);
    assert x % U32 == x - U32;
  }

  // An unsigned product with the page size.
  lemma ProductWraps(n: nat)
    ensures n * PAGE % U32 == (n % 0x10_0000) * PAGE
  {
    var q, r := n / 0x10_0000, n % 0x10_0000;
    ModuloIs(n * PAGE, U32, q, r * PAGE);
  }

  lemma GrowOrCut(slots: seq<Slot>, frames: seq<Page>, data: seq<Byte>)
    requires Inv(slots, frames, data)
    ensures var n := PagesOf(data) + 1;
            var data' := Resize(data, n % 0x10_0000 * PAGE);
            if n < 0x10_0000 then
              PagesOf(data') == n && Inv(slots, frames, data')
              && View(slots, frames, data') == Grown(View(slots, frames, data))
            else PagesOf(data') != n
  {
    hide View, Resize, Grown, Inv;
    var n := PagesOf(data) + 1;
    if n < 0x10_0000 {
      Grow(slots, frames, data);
    } else {
      assert PagesOf(Resize(data, n % 0x10_0000 * PAGE)) == n % 0x10_0000;
    }
  }

  // In a full turn the hand moves on by one slot a step, so it meets each slot exactly once.
  lemma HandMeets(c: nat, k: nat, n: nat)
    requires c < U32 && k < n <= PAGE_IDS && FullTurns(c, n, 1)
    ensures StepsTo(c % n, Hand(c, k, n), n) == k
  {
    var s, t := c % n, c / n;
    assert c == n * t + s;
    assert (c + k) % n == (s + k) % n by { WholeTurns(s + k, n, t); }
    OneTurnModulo(s, k, n);
    if c + k >= U32 {
      WrapHarmless(c + k, n);
    }
  }

  // What holds n steps into a turn that began with `slots` and the counter at c.
  ghost predicate Turning(slots: seq<Slot>, now: seq<Slot>, c: nat, n: nat, dirtyPage: nat, nPages: nat)
  {
    && SameIdentity(slots, now) && n <= |slots| && dirtyPage < PAGE_IDS
    && (nPages < PAGE_IDS && dirtyPage != nPages ==> DirtyPageId(slots, dirtyPage, nPages))
    && (nPages >= PAGE_IDS ==> dirtyPage == nPages % PAGE_IDS)
    && (FullTurns(c, |slots|, 1) ==> forall j :: 0 <= j < |slots| ==>
          var behind := StepsTo(c % |slots|, j, |slots|) < n;
          && TurnedPast(slots[j], now[j].access, behind)
          && (nPages < PAGE_IDS && dirtyPage == nPages && behind ==> !slots[j].dirty))
  }

  // A whole turn, or a turn cut short at a clean and unaccessed slot i.
  ghost predicate Turned(slots: seq<Slot>, now: seq<Slot>, c: nat, n: nat, i: nat, dirtyPage: nat, nPages: nat)
  {
    && SameIdentity(slots, now) && n <= |slots| && dirtyPage < PAGE_IDS
    && (nPages < PAGE_IDS && dirtyPage != nPages ==> DirtyPageId(now, dirtyPage, nPages))
    && (nPages >= PAGE_IDS ==> dirtyPage == nPages % PAGE_IDS)
    && (FullTurns(c, |slots|, 1) ==>
          if n < |slots| then i < |slots| && !slots[i].access
          else
            && (forall j :: 0 <= j < |slots| ==> TurnedPast(slots[j], now[j].access, true))
            && (nPages < PAGE_IDS && dirtyPage == nPages ==> forall j :: 0 <= j < |slots| ==> !now[j].dirty))
  }

  lemma SlotCount(slots: seq<Slot>, frames: seq<Page>, data: seq<Byte>)
    requires Inv(slots, frames, data)
    ensures |slots| <= PAGE_IDS
  {
  }

  lemma TurnStart(slots: seq<Slot>, c: nat, nPages: nat)
    ensures Turning(slots, slots, c, 0, nPages % PAGE_IDS, nPages)
  {
  }

  // The hand passes a dirty slot, or a clean one whose access bit it clears, or stops.
  lemma TurnStep(slots: seq<Slot>, now: seq<Slot>, frames: seq<Page>, data: seq<Byte>,
                 c: nat, n: nat, i: nat, dirtyPage: nat)
    requires Inv(slots, frames, data) && Turning(slots, now, c, n, dirtyPage, PagesOf(data))
    requires c < U32 && n < |slots| == |now| && i == Hand(c, n, |slots|)
    ensures now[i].dirty ==> now[i].page < PAGE_IDS
    ensures now[i].dirty ==>
              Turning(slots, now, c, n + 1, if dirtyPage == PagesOf(data) then now[i].page else dirtyPage, PagesOf(data))
    ensures !now[i].dirty && now[i].access ==>
              Turning(slots, now[i := now[i].(access := false)], c, n + 1, dirtyPage, PagesOf(data))
  {
    hide Hand, FullTurns, View;
    assert SlotOk(slots[i], i, frames, data);
    if slots[i].loaded { FindUnique(slots, slots[i].page, i); }
    if FullTurns(c, |slots|, 1) { HandMeets(c, n, |slots|); }
  }

  lemma TurnEnd(slots: seq<Slot>, now: seq<Slot>, frames: seq<Page>, data: seq<Byte>,
                c: nat, n: nat, i: nat, dirtyPage: nat)
    requires Inv(slots, frames, data) && Turning(slots, now, c, n, dirtyPage, PagesOf(data)) && c < U32
    requires n < |slots| ==> i == Hand(c, n, |slots|) && i < |now| && !now[i].access
    ensures Inv(now, frames, data) && View(now, frames, data) == View(slots, frames, data)
    ensures Turned(slots, now, c, n, i, dirtyPage, PagesOf(data))
  {
    hide Hand, FullTurns, View, Inv;
    AccessIrrelevant(slots, now, frames, data);
    SlotCount(slots, frames, data);
    FindSame(slots, now, dirtyPage, 0);
    if FullTurns(c, |slots|, 1) {
      if n < |slots| {
        HandMeets(c, n, |slots|);
      } else {
        forall j | 0 <= j < |slots| ensures StepsTo(c % |slots|, j, |slots|) < n { }
      }
    }
  }

  // A turn does not change what is loaded; cut short, the load finds room, and if it was a whole turn with
  // nothing to write back there is none.
  lemma AfterTurn(slots: seq<Slot>, now: seq<Slot>, c: nat, n: nat, i: nat, dirtyPage: nat, nPages: nat, p: nat)
    requires Turned(slots, now, c, n, i, dirtyPage, nPages)
    requires n < |slots| ==> i < |now| && !now[i].dirty
    ensures |now| == |slots| && Find(now, p) == Find(slots, p) && dirtyPage < PAGE_IDS
    ensures forall j :: 0 <= j < |slots| ==> now[j].dirty == slots[j].dirty
    ensures Predictable(c, slots) && n < |slots| ==> !NoRoom(slots, nPages)
    ensures Predictable(c, slots) && n == |slots| && nPages < PAGE_IDS ==>
              if dirtyPage < nPages then DirtyPageId(now, dirtyPage, nPages) else OutOfRoom(slots) && Rested(now)
    ensures Predictable(c, slots) && n == |slots| && nPages >= PAGE_IDS ==>
              dirtyPage < nPages && (!DirtyPageId(now, dirtyPage, nPages) ==> NoRoom(slots, nPages))
  {
    hide DirtyCount;
    FindSame(slots, now, p, 0);
    FindSame(slots, now, nPages % PAGE_IDS, 0);
    if Predictable(c, slots) {
      OneOf(c, |slots|, DirtyCount(slots) + 1);
      assert forall j :: 0 <= j < |slots| && n == |slots| ==> TurnedPast(slots[j], now[j].access, true);
      if n < |slots| {
        assert !slots[i].dirty && !slots[i].access;
      }
    }
  }

  // Writing back the page a whole turn has found leaves one dirty slot less and the same prospects.
  lemma AfterWriteBack(slots: seq<Slot>, now: seq<Slot>, c: nat, i: nat, dirtyPage: nat, nPages: nat, p: nat)
    requires c < U32 && Turned(slots, now, c, |slots|, i, dirtyPage, nPages)
    requires Find(now, dirtyPage) < |now| && now[Find(now, dirtyPage)].dirty && dirtyPage < nPages
    ensures var d := Find(now, dirtyPage);
            var after := now[d := now[d].(dirty := false)];
            && DirtyCount(after) < DirtyCount(slots) && Find(after, p) == Find(now, p)
            && (nPages >= PAGE_IDS ==> DirtyPageId(slots, nPages % PAGE_IDS, nPages))
            && (Predictable(c, slots) ==>
                  NoRoom(after, nPages) == NoRoom(slots, nPages) && Predictable((c + |slots|) % U32, after))
  {
    hide OutOfRoom, SentinelBlocks, DirtyCount, FullTurns;
    var d := Find(now, dirtyPage);
    var after := now[d := now[d].(dirty := false)];
    FindSame(now, after, p, 0);
    FindSame(slots, now, dirtyPage, 0);
    DirtyCountSame(slots, now);
    DirtyCountCleaned(now, d, now[d].(dirty := false));
    if Predictable(c, slots) {
      OneOf(c, |slots|, DirtyCount(slots) + 1);
      TurnsLeft(c, |slots|, DirtyCount(slots));
      if nPages < PAGE_IDS {
        OutOfRoomStep(slots, now, d);
      } else {
        SentinelStep(slots, now, nPages);
      }
    }
  }

  class BufferPool {
    const file: FsFile
    const frames: array<Page>
    const pages: array<Slot>
    var clockCursor: nat      // unsigned
    var nPages: nat           // n_pages_in_file, unsigned

    ghost predicate Valid()
      reads this, file, frames, pages
    {
      && clockCursor < U32
      && nPages == PagesOf(file.data)
      && Inv(pages[..], frames[..], file.data)
    }

    // What clients rely on: a plain array of pages.
    ghost function Contents(): Store
      reads this, file, frames, pages
      requires Valid()
    {
      View(pages[..], frames[..], file.data)
    }

    // BP_Init, after the file was opened. A page slot names its frame in 16 bits.
    constructor (f: FsFile, frames: array<Page>, pages: array<Slot>)
      requires frames.Length == pages.Length <= PAGE_IDS
      requires forall i :: 0 <= i < frames.Length ==> |frames[i]| == PAGE
      modifies pages
      ensures Valid() && this.file == f && this.frames == frames && this.pages == pages
      ensures clockCursor == 0
      ensures forall i :: 0 <= i < pages.Length ==> pages[i] == Slot(0, 0, false, false, false)
      ensures f.data == old(f.data) && Contents() == StoreOf(f.data)
    {
      file := f;
      this.frames := frames;
      this.pages := pages;
      clockCursor, nPages := 0, 0;
      new;
      for i := 0 to pages.Length
        invariant forall j :: 0 <= j < i ==> pages[j] == Slot(0, 0, false, false, false)
        invariant clockCursor == 0 && nPages == 0
      {
        pages[i] := Slot(0, 0, false, false, false);
      }
      StatPageFile();
      CleanFile(pages[..], frames[..], file.data);
    }

    // BP_StatPageFile
    method StatPageFile()
      modifies this`nPages
      ensures nPages == PagesOf(file.data)
    {
      var n := file.Size();
      nPages := 0;
      if n >= PAGE {
        nPages := n / PAGE;
      }
    }

    // BP_GetPagePtr
    method GetPagePtr(p: nat) returns (i: nat)
      ensures i == Find(pages[..], p)
    {
      i := 0;
      while i < pages.Length
        invariant i <= pages.Length
        invariant FindFrom(pages[..], p, i) == Find(pages[..], p)
      {
        if pages[i].page == p && pages[i].loaded {
          return;
        }
        i := i + 1;
      }
    }

    // BP_WriteDirtyPage
    method WriteDirtyPage(p: nat) returns (ok: bool)
      requires Valid() && p < PAGE_IDS
      modifies pages, file
      ensures Valid() && Contents() == old(Contents()) && |file.data| == old(|file.data|)
      ensures file.faults >= old(file.faults)
      ensures var i := Find(old(pages[..]), p);
              if i < pages.Length && old(pages[i].dirty) then
                && (!ok ==> file.faults > old(file.faults))
                && pages[..] == if ok then old(pages[..])[i := old(pages[i]).(dirty := false)] else old(pages[..])
              else !ok && pages[..] == old(pages[..]) && file.faults == old(file.faults)
    {
      ok := false;
      var i := GetPagePtr(p);
      if i < pages.Length && pages[i].dirty {
        assert SlotOk(pages[..][i], i, frames[..], file.data);
        ghost var slots, data := pages[..], file.data;
        var frame := frames[pages[i].frame];
        var sought := file.Seek(p * PAGE);
        if sought {
          OverwriteOther(file.data, p, frame);
          var n := file.Write(frame);
          WriteBack(slots, frames[..], data, i, n);
          OverwriteOther(data, p, frame[..n]);
          if n == PAGE {
            assert frame[..n] == frame;
            pages[i] := pages[i].(dirty := false);
            assert pages[..] == slots[i := slots[i].(dirty := false)];
            ok := true;
          }
        }
      }
    }

    // One turn of the clock hand: the for loop of BP_LoadPage. `dirtyPage` is an unsigned short.
    method Turn() returns (n: nat, i: nat, dirtyPage: nat)
      requires Valid()
      modifies pages, this`clockCursor
      ensures Valid() && Contents() == old(Contents())
      ensures n <= pages.Length && clockCursor == (old(clockCursor) + n) % U32
      ensures n < pages.Length ==> i < pages.Length && !pages[i].dirty && !pages[i].access
      ensures Turned(old(pages[..]), pages[..], old(clockCursor), n, i, dirtyPage, nPages)
    {
      hide Turning, Turned, Inv, View, SameIdentity, FullTurns;
      ghost var slots, c := pages[..], clockCursor;
      dirtyPage := nPages % PAGE_IDS;
      n, i := 0, 0;
      TurnStart(slots, c, nPages);
      SlotCount(slots, frames[..], file.data);
      while n < pages.Length
        invariant n <= pages.Length && clockCursor < U32 && clockCursor == (c + n) % U32
        invariant Turning(slots, pages[..], c, n, dirtyPage, nPages)
        decreases pages.Length - n
      {
        i := clockCursor % pages.Length;
        ghost var now := pages[..];
        TurnStep(slots, now, frames[..], file.data, c, n, i, dirtyPage);
        if pages[i].dirty {
          if dirtyPage == nPages {
            dirtyPage := pages[i].page;
          }
        } else if pages[i].access {
          pages[i] := pages[i].(access := false);
          assert pages[..] == now[i := now[i].(access := false)];
        } else {
          break;
        }
        NextCursor(c, n);
        clockCursor, n := (clockCursor + 1) % U32, n + 1;
      }
      TurnEnd(slots, pages[..], frames[..], file.data, c, n, i, dirtyPage);
    }

    // The part of BP_LoadPage from `again` on: a turn, and if it finds no slot one write-back.
    method TryFree(ghost p: nat) returns (found: bool, again: bool, i: nat)
      requires Valid() && Find(pages[..], p) == pages.Length
      modifies pages, file, this`clockCursor
      ensures Valid() && Contents() == old(Contents()) && Find(pages[..], p) == pages.Length
      ensures file.faults >= old(file.faults) && !(found && again)
      ensures found ==> i < pages.Length && !pages[i].dirty
      ensures again ==> DirtyCount(pages[..]) < DirtyCount(old(pages[..]))
      ensures found ==> !old(pages[i].dirty)
      ensures !found ==> clockCursor == (old(clockCursor) + pages.Length) % U32
      // past 65535 pages the sentinel is a real page id, and that page alone can be written back
      ensures again && nPages >= PAGE_IDS ==> DirtyPageId(old(pages[..]), nPages % PAGE_IDS, nPages)
      ensures Predictable(old(clockCursor), old(pages[..])) ==>
                && (found ==> !NoRoom(old(pages[..]), nPages))
                && (again ==> NoRoom(pages[..], nPages) == NoRoom(old(pages[..]), nPages) && Predictable(clockCursor, pages[..]))
                && (!found && !again && file.faults == old(file.faults) ==>
                      NoRoom(old(pages[..]), nPages) && (nPages < PAGE_IDS ==> Rested(pages[..])))
    {
      hide Inv, View, Turned, Predictable, OutOfRoom, SentinelBlocks, Rested, DirtyCount, Find;
      found, again := false, false;
      ghost var start, c := pages[..], clockCursor;
      var n, dirtyPage;
      n, i, dirtyPage := Turn();
      ghost var now := pages[..];
      AfterTurn(start, now, c, n, i, dirtyPage, nPages, p);
      if n < pages.Length {
        assert now[i].dirty == start[i].dirty;
        found := true;
      } else if dirtyPage < nPages {
        again := WriteDirtyPage(dirtyPage);
        if again {
          ghost var d := Find(now, dirtyPage);
          assert pages[..] == now[d := now[d].(dirty := false)];
          AfterWriteBack(start, now, c, i, dirtyPage, nPages, p);
        }
      }
    }

    method FreeSlot(ghost p: nat) returns (found: bool, i: nat)
      requires Valid() && Find(pages[..], p) == pages.Length
      modifies pages, file, this`clockCursor
      ensures Valid() && Contents() == old(Contents()) && Find(pages[..], p) == pages.Length
      ensures file.faults >= old(file.faults)
      ensures found ==> i < pages.Length && !pages[i].dirty
      ensures file.faults == old(file.faults) && Predictable(old(clockCursor), old(pages[..])) ==>
                (found <==> !NoRoom(old(pages[..]), nPages)) && (!found && nPages < PAGE_IDS ==> Rested(pages[..]))
      ensures Stuck(old(pages[..]), nPages) ==> !found
      // giving up takes one turn more than there are dirty slots
      ensures FullTurns(old(clockCursor), pages.Length, DirtyCount(old(pages[..])) + 2) && !found ==>
                FullTurns(clockCursor, pages.Length, 1)
    {
      hide FullTurns, Predictable, Rested, NoRoom;
      ghost var before := pages[..];
      ghost var spare := FullTurns(clockCursor, pages.Length, DirtyCount(before) + 2);
      ghost var exact := Predictable(clockCursor, before);
      var again := true;
      found, i := false, 0;
      while again
        invariant Valid() && Contents() == old(Contents()) && Find(pages[..], p) == pages.Length
        invariant file.faults >= old(file.faults)
        invariant found ==> i < pages.Length && !pages[i].dirty
        invariant exact && found ==> !NoRoom(before, nPages)
        invariant exact && again ==> !found && Predictable(clockCursor, pages[..])
                                     && NoRoom(pages[..], nPages) == NoRoom(before, nPages)
        invariant exact && !found && !again && file.faults == old(file.faults) ==>
                    NoRoom(before, nPages) && (nPages < PAGE_IDS ==> Rested(pages[..]))
        invariant clockCursor < U32 && (again ==> !found)
        invariant Stuck(before, nPages) ==> !found && (again ==> pages[..] == before)
        invariant spare && !found ==> FullTurns(clockCursor, pages.Length, if again then DirtyCount(pages[..]) + 2 else 1)
        decreases again, DirtyCount(pages[..])
      {
        ghost var c, turns := clockCursor, DirtyCount(pages[..]) + 1;
        found, again, i := TryFree(p);
        if spare && !found {
          TurnsLeft(c, pages.Length, turns);
          FewerTurns(clockCursor, pages.Length, turns, if again then DirtyCount(pages[..]) + 2 else 1);
        }
      }
    }

    // The rest of BP_LoadPage: reuse slot i for page p. The bytes go straight into the frame.
    method ReadInto(i: nat, p: nat) returns (ok: bool)
      requires Valid() && p < PAGE_IDS && i < pages.Length && !pages[i].dirty && Find(pages[..], p) == pages.Length
      modifies pages, frames, file
      ensures Valid() && Contents() == old(Contents()) && file.data == old(file.data)
      ensures file.faults >= old(file.faults)
      ensures ok ==> p < nPages && Find(pages[..], p) == i && frames[i] == Contents().pages[p]
      ensures !ok && p < nPages ==> file.faults > old(file.faults)
    {
      ok := false;
      ghost var slots, bytes := pages[..], frames[..];
      pages[i] := Slot(i % PAGE_IDS, p, false, false, false);
      var sought := file.Seek(p * PAGE);
      var dst := [];
      if sought {
        dst := file.Read(PAGE);
        frames[i] := dst + frames[i][|dst|..];
      }
      Evict(slots, bytes, file.data, i, pages[i], frames[i]);
      assert frames[..] == bytes[i := frames[i]] && pages[..] == slots[i := pages[i]];
      if |dst| == PAGE {
        ghost var empty := pages[..];
        assert Find(empty, p) == |empty|;
        assert frames[i] == PageAt(file.data, p);
        Install(empty, frames[..], file.data, i, p);
        pages[i] := pages[i].(loaded := true);
        assert pages[..] == empty[i := Slot(i, p, false, false, true)];
        FindUnique(pages[..], p, i);
        ok := true;
      }
    }

    // BP_LoadPage: `frame` stands for the data pointer handed to the caller.
    method LoadPage(p: nat) returns (ok: bool, frame: nat)
      requires Valid() && p < PAGE_IDS
      modifies pages, frames, file, this`clockCursor
      // replacement, write-back and faults never change what the pool holds
      ensures Valid() && Contents() == old(Contents())
      ensures ok ==> p < nPages && Find(pages[..], p) == frame < frames.Length && frames[frame] == Contents().pages[p]
      ensures file.faults >= old(file.faults)
      // without a fault the load fails exactly for a page that does not exist or when no slot can be freed
      ensures file.faults == old(file.faults) && Predictable(old(clockCursor), old(pages[..])) ==>
                && (ok <==> p < nPages && (Find(old(pages[..]), p) < pages.Length || !NoRoom(old(pages[..]), nPages)))
                && (!ok && p < nPages < PAGE_IDS ==> Rested(pages[..]))
      // a stuck pool fails whatever the counter does
      ensures Stuck(old(pages[..]), nPages) && Find(old(pages[..]), p) == pages.Length ==> !ok
      ensures file.faults == old(file.faults) && !ok && p < nPages
              && FullTurns(old(clockCursor), pages.Length, DirtyCount(old(pages[..])) + 2) ==>
                FullTurns(clockCursor, pages.Length, 1)
    {
      hide FullTurns, DirtyCount, NoRoom, Rested;
      ok, frame := false, 0;
      var i := GetPagePtr(p);
      if i < pages.Length {
        ghost var before := pages[..];
        assert SlotOk(before[i], i, frames[..], file.data);
        pages[i] := pages[i].(access := true);
        AccessIrrelevant(before, pages[..], frames[..], file.data);
        FindSame(before, pages[..], p, 0);
        return true, pages[i].frame;
      }
      var found;
      found, i := FreeSlot(p);
      if found {
        ok := ReadInto(i, p);
        frame := i;
      }
    }

    // BP_MarkPageDirty
    method MarkPageDirty(p: nat)
      modifies pages
      ensures var i := Find(old(pages[..]), p);
              pages[..] == if i < pages.Length then old(pages[..])[i := old(pages[i]).(dirty := true)] else old(pages[..])
    {
      ghost var slots := pages[..];
      var i := GetPagePtr(p);
      if i < pages.Length {
        pages[i] := pages[i].(dirty := true);
        assert pages[..] == slots[i := slots[i].(dirty := true)];
      }
    }

    // What a client does with a loaded page: change bytes through the data pointer, then mark it dirty.
    method ClientWrite(p: nat, offset: nat, src: seq<Byte>) returns (ok: bool)
      requires Valid() && offset + |src| <= PAGE
      modifies pages, frames
      ensures Valid() && ok == (Find(old(pages[..]), p) < pages.Length)
      ensures ok ==> p < nPages && Contents() == Patched(old(Contents()), p, offset, src)
      ensures !ok ==> Contents() == old(Contents())
    {
      ghost var slots, bytes := pages[..], frames[..];
      var i := GetPagePtr(p);
      ok := i < pages.Length;
      if ok {
        assert SlotOk(slots[i], i, bytes, file.data);
        var f := pages[i].frame;
        frames[f] := frames[f][..offset] + src + frames[f][offset + |src|..];
        MarkPageDirty(p);
        ClientChange(slots, bytes, file.data, i, frames[i]);
        assert frames[..] == bytes[i := frames[i]];
        FindUnique(slots, p, i);
      }
    }

    // The first half of BP_AllocPage. The new size is an unsigned product: once the file would reach 4 GiB it
    // is cut instead of extended, and the page count is then wrong.
    method GrowFile() returns (ok: bool)
      requires Valid() && nPages + 1 < U32
      modifies this`nPages, file
      ensures !ok ==> nPages == old(nPages) && file.data == old(file.data) && file.faults > old(file.faults)
      ensures ok ==> nPages == old(nPages) + 1 && file.data == Resize(old(file.data), nPages % 0x10_0000 * PAGE)
      ensures ok ==> file.faults == old(file.faults)
      ensures Valid() <==> !ok || nPages < 0x10_0000
      ensures ok && nPages < 0x10_0000 ==> Contents() == Grown(old(Contents()))
    {
      hide Inv, View, Resize, Grown, PagesOf;
      ProductWraps(nPages + 1);
      GrowOrCut(pages[..], frames[..], file.data);
      ok := file.Truncate((nPages + 1) * PAGE % U32);
      if ok {
        nPages := nPages + 1;
      }
    }

    // BP_AllocPage. The new page's id is truncated to 16 bits, and the file size is an unsigned.
    method AllocPage() returns (ok: bool, id: nat, frame: nat)
      requires Valid() && (nPages + 1) * PAGE < U32
      modifies this, pages, frames, file
      ensures Valid() && id < PAGE_IDS
      ensures nPages == old(nPages) + 1 || (nPages == old(nPages) && !ok && file.faults > old(file.faults))
      ensures Contents() == if nPages == old(nPages) then old(Contents()) else Grown(old(Contents()))
      ensures ok ==> id == old(nPages) % PAGE_IDS && frame < frames.Length && frames[frame] == Contents().pages[id]
      ensures file.faults >= old(file.faults)
      // without a fault the new page is loaded exactly if its truncated id is loaded already or a slot can be freed
      ensures file.faults == old(file.faults) && Predictable(old(clockCursor), old(pages[..])) ==>
                (ok <==> Find(old(pages[..]), old(nPages) % PAGE_IDS) < pages.Length || !NoRoom(old(pages[..]), nPages))
    {
      hide Inv, View, NoRoom, Predictable, Find;
      ok, id, frame := false, 0, 0;
      var last := nPages;
      ghost var slots := pages[..];
      var grown := GrowFile();
      if grown {
        id := last % PAGE_IDS;
        assert pages[..] == slots;
        ok, frame := LoadPage(id);
      }
    }

    // BP_Flush
    method Flush()
      requires Valid()
      modifies pages, file
      ensures Valid() && Contents() == old(Contents())
      ensures file.faults >= old(file.faults)
      ensures file.faults == old(file.faults) ==>
                (forall i :: 0 <= i < pages.Length ==> !pages[i].dirty) && StoreOf(file.data) == Contents()
    {
      ghost var slots := pages[..];
      for i := 0 to pages.Length
        invariant Valid() && Contents() == old(Contents()) && nPages == old(nPages)
        invariant file.faults >= old(file.faults)
        invariant |slots| == pages.Length && Distinct(slots)
        invariant forall j :: 0 <= j < pages.Length ==> pages[j].page == slots[j].page && pages[j].loaded == slots[j].loaded
        invariant file.faults == old(file.faults) ==> forall j :: 0 <= j < i ==> !pages[j].dirty
      {
        if pages[i].dirty {
          ghost var now := pages[..];
          assert SlotOk(now[i], i, frames[..], file.data);
          FindUnique(now, now[i].page, i);
          var ok := WriteDirtyPage(pages[i].page);
        }
      }
      if file.faults == old(file.faults) {
        CleanFile(pages[..], frames[..], file.data);
      }
    }

    // BP_Truncate. The size is an unsigned, so the page count is taken modulo 2^20. Slots are not dropped:
    // the pool stays consistent exactly when no loaded page is cut off.
    method Truncate(count: nat) returns (ok: bool)
      requires Valid()
      modifies this`nPages, file
      ensures !ok ==> Valid() && Contents() == old(Contents()) && file.faults > old(file.faults)
      ensures ok ==> nPages == count % 0x10_0000 && file.data == Resize(old(file.data), nPages * PAGE)
      ensures ok ==> (Valid() <==> forall i :: 0 <= i < pages.Length && pages[i].loaded ==> pages[i].page < nPages)
      ensures ok && Valid() ==>
                forall p :: 0 <= p < nPages && p < old(nPages) ==> Contents().pages[p] == old(Contents().pages[p])
    {
      ghost var data, n := file.data, count % 0x10_0000;
      ProductWraps(count);
      ok := file.Truncate(count * PAGE % U32);
      if ok {
        StatPageFile();
        ghost var slots, bytes := pages[..], frames[..];
        assert PagesOf(file.data) == n;
        forall p | 0 <= p < n && p < PagesOf(data) ensures PageAt(file.data, p) == PageAt(data, p) {
          assert (p + 1) * PAGE <= n * PAGE;
        }
        assert forall j :: 0 <= j < |slots| ==> SlotOk(slots[j], j, bytes, data);
        if forall i :: 0 <= i < pages.Length && pages[i].loaded ==> pages[i].page < n {
          forall j | 0 <= j < |slots| ensures SlotOk(slots[j], j, bytes, file.data) {
            assert SlotOk(slots[j], j, bytes, data);
          }
        } else {
          var i :| 0 <= i < pages.Length && pages[i].loaded && pages[i].page >= n;
          assert !SlotOk(slots[i], i, bytes, file.data);
        }
      }
    }
  }

  // A later session on the same file starts from what the earlier one held.
  method Reopen(pool: BufferPool, frames: array<Page>, pages: array<Slot>) returns (next: BufferPool)
    requires pool.Valid() && frames.Length == pages.Length <= PAGE_IDS
    requires forall i :: 0 <= i < frames.Length ==> |frames[i]| == PAGE
    modifies pool.pages, pool.file, pages
    ensures next.Valid() && next.file == pool.file && next.frames == frames && next.pages == pages
    ensures pool.file.faults == old(pool.file.faults) ==> next.Contents() == old(pool.Contents())
  {
    pool.Flush();
    next := new BufferPool(pool.file, frames, pages);
  }
}
