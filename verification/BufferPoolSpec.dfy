/** What the buffer pool means: slots, frames and a file denote one sequence of pages.
    Everything here is a value; BufferPool.dfy ties the mutable pool to it. */
module BufferPoolSpec {
  import opened FileSystem

  const PAGE: nat := 4096       // BP_PAGE_SIZE
  const PAGE_IDS: nat := 65536  // number of values of bp_page_id, an unsigned short

  type Page = seq<Byte>

  // BP_Page: the frame and page fields with the three flag bits
  datatype Slot = Slot(frame: nat, page: nat, access: bool, dirty: bool, loaded: bool)

  // A file as the pool's clients see it: whole pages and what follows the last whole page.
  datatype Store = Store(pages: seq<Page>, tail: seq<Byte>)

  function PageAt(data: seq<Byte>, p: nat): (r: Page)
    requires (p + 1) * PAGE <= |data|
    ensures |r| == PAGE
  {
    data[p * PAGE..(p + 1) * PAGE]
  }

  function PagesOf(data: seq<Byte>): (r: nat)
    ensures r * PAGE <= |data| < (r + 1) * PAGE
  {
    |data| / PAGE
  }

  function StoreOf(data: seq<Byte>): (s: Store)
    ensures |s.pages| == PagesOf(data)
  {
    Store(seq(PagesOf(data), p requires 0 <= p < PagesOf(data) => PageAt(data, p)), data[PagesOf(data) * PAGE..])
  }

  // Page p is the bytes of the file from 4096 * p on, and every byte of the file is in a page or in the tail.
  lemma FileLayout(data: seq<Byte>)
    ensures var s := StoreOf(data);
            && |data| == 4096 * |s.pages| + |s.tail| && |s.tail| < 4096
            && (forall p, i :: 0 <= p < |s.pages| && 0 <= i < 4096 ==> |s.pages[p]| == 4096 && s.pages[p][i] == data[4096 * p + i])
            && forall i :: 0 <= i < |s.tail| ==> s.tail[i] == data[4096 * |s.pages| + i]
  {
    var s := StoreOf(data);
    forall p, i | 0 <= p < |s.pages| && 0 <= i < 4096 ensures |s.pages[p]| == 4096 && s.pages[p][i] == data[4096 * p + i] {
      assert (p + 1) * PAGE <= |s.pages| * PAGE && s.pages[p] == PageAt(data, p);
    }
  }

  // The slot the linear search of BP_GetPagePtr stops at.
  function FindFrom(slots: seq<Slot>, p: nat, i: nat): (r: nat)
    requires i <= |slots|
    ensures i <= r <= |slots|
    ensures r < |slots| ==> slots[r].loaded && slots[r].page == p
    ensures forall j :: i <= j < r ==> !(slots[j].loaded && slots[j].page == p)
    decreases |slots| - i
  {
    if i == |slots| || (slots[i].loaded && slots[i].page == p) then i else FindFrom(slots, p, i + 1)
  }

  function Find(slots: seq<Slot>, p: nat): (r: nat)
    ensures r <= |slots|
    ensures r < |slots| ==> slots[r].loaded && slots[r].page == p
    ensures forall j :: 0 <= j < r ==> !(slots[j].loaded && slots[j].page == p)
  {
    FindFrom(slots, p, 0)
  }

  ghost predicate SlotOk(slot: Slot, i: nat, frames: seq<Page>, data: seq<Byte>)
    requires i < |frames|
  {
    && (slot.dirty ==> slot.loaded)
    && (slot.loaded ==>
          && slot.frame == i
          && slot.page < PagesOf(data)
          && slot.page < PAGE_IDS
          && (!slot.dirty ==> frames[i] == PageAt(data, slot.page)))
  }

  ghost predicate Distinct(slots: seq<Slot>)
  {
    forall i, j :: 0 <= i < j < |slots| && slots[i].loaded && slots[j].loaded ==> slots[i].page != slots[j].page
  }

  // The pool's invariant.
  ghost predicate Inv(slots: seq<Slot>, frames: seq<Page>, data: seq<Byte>)
  {
    && |slots| == |frames| <= PAGE_IDS
    && (forall i :: 0 <= i < |frames| ==> |frames[i]| == PAGE)
    && (forall i :: 0 <= i < |slots| ==> SlotOk(slots[i], i, frames, data))
    && Distinct(slots)
  }

  // The bytes of page p: its frame when it is loaded, the file's otherwise.
  ghost function Current(slots: seq<Slot>, frames: seq<Page>, data: seq<Byte>, p: nat): Page
    requires |slots| == |frames| && p < PagesOf(data)
  {
    var i := Find(slots, p);
    if i < |slots| then frames[i] else PageAt(data, p)
  }

  ghost function View(slots: seq<Slot>, frames: seq<Page>, data: seq<Byte>): (v: Store)
    requires |slots| == |frames|
    ensures |v.pages| == PagesOf(data)
    ensures forall p :: 0 <= p < PagesOf(data) ==> v.pages[p] == Current(slots, frames, data, p)
  {
    Store(seq(PagesOf(data), p requires 0 <= p < PagesOf(data) => Current(slots, frames, data, p)),
          data[PagesOf(data) * PAGE..])
  }

  // The only thing about a loaded page that decides Find.
  lemma FindUnique(slots: seq<Slot>, p: nat, i: nat)
    requires Distinct(slots) && i < |slots| && slots[i].loaded && slots[i].page == p
    ensures Find(slots, p) == i
  {
  }

  ghost predicate SameIdentity(a: seq<Slot>, b: seq<Slot>)
  {
    |a| == |b| && forall i :: 0 <= i < |a| ==>
      && a[i].loaded == b[i].loaded && a[i].page == b[i].page && a[i].frame == b[i].frame && a[i].dirty == b[i].dirty
  }

  lemma {:induction false} FindSame(a: seq<Slot>, b: seq<Slot>, p: nat, i: nat)
    requires |a| == |b| && i <= |a|
    requires forall j :: 0 <= j < |a| ==> a[j].loaded == b[j].loaded && a[j].page == b[j].page
    ensures FindFrom(a, p, i) == FindFrom(b, p, i)
    decreases |a| - i
  {
    if i < |a| { FindSame(a, b, p, i + 1); }
  }

  // Access bits are only a hint for replacement.
  lemma AccessIrrelevant(a: seq<Slot>, b: seq<Slot>, frames: seq<Page>, data: seq<Byte>)
    requires Inv(a, frames, data) && SameIdentity(a, b)
    ensures Inv(b, frames, data) && View(b, frames, data) == View(a, frames, data)
  {
    forall i | 0 <= i < |b| ensures SlotOk(b[i], i, frames, data) {
      assert SlotOk(a[i], i, frames, data);
    }
    forall p | 0 <= p < PagesOf(data) ensures Current(b, frames, data, p) == Current(a, frames, data, p) {
      FindSame(a, b, p, 0);
    }
    assert View(b, frames, data).pages == View(a, frames, data).pages;
  }

  // Overwriting inside page q changes no other page, nor the number of pages or the tail.
  lemma OverwriteOther(data: seq<Byte>, q: nat, src: seq<Byte>)
    requires q < PagesOf(data) && |src| <= PAGE
    ensures |Overwrite(data, q * PAGE, src)| == |data|
    ensures forall p :: 0 <= p < PagesOf(data) && p != q ==>
              PageAt(Overwrite(data, q * PAGE, src), p) == PageAt(data, p)
    ensures |src| == PAGE ==> PageAt(Overwrite(data, q * PAGE, src), q) == src
    ensures var n := PagesOf(data) * PAGE; Overwrite(data, q * PAGE, src)[n..] == data[n..]
  {
    var r := Overwrite(data, q * PAGE, src);
    assert q * PAGE + |src| <= |data|;
    assert |r| == |data|;
    assert forall k :: 0 <= k < q * PAGE ==> r[k] == data[k];
    assert forall k :: q * PAGE + |src| <= k < |data| ==> r[k] == data[k];
    assert forall k :: q * PAGE <= k < q * PAGE + |src| ==> r[k] == src[k - q * PAGE];
    forall p | 0 <= p < PagesOf(data) && p != q ensures PageAt(r, p) == PageAt(data, p) {
      if p < q {
        assert (p + 1) * PAGE <= q * PAGE;
      } else {
        assert q * PAGE + PAGE <= p * PAGE;
      }
    }
  }

  // Write-back of a dirty page, complete (the page becomes clean) or cut short (it stays dirty).
  lemma WriteBack(slots: seq<Slot>, frames: seq<Page>, data: seq<Byte>, i: nat, n: nat)
    requires Inv(slots, frames, data) && i < |slots| && slots[i].dirty && n <= PAGE
    ensures var data' := Overwrite(data, slots[i].page * PAGE, frames[i][..n]);
            var slots' := if n == PAGE then slots[i := slots[i].(dirty := false)] else slots;
            Inv(slots', frames, data') && View(slots', frames, data') == View(slots, frames, data)
  {
    assert SlotOk(slots[i], i, frames, data);
    var q := slots[i].page;
    var data' := Overwrite(data, q * PAGE, frames[i][..n]);
    var slots' := if n == PAGE then slots[i := slots[i].(dirty := false)] else slots;
    OverwriteOther(data, q, frames[i][..n]);
    assert PagesOf(data') == PagesOf(data);
    forall j | 0 <= j < |slots| ensures SlotOk(slots'[j], j, frames, data') {
      assert SlotOk(slots[j], j, frames, data);
      if j == i {
        assert n == PAGE ==> frames[i][..n] == frames[i];
      } else if slots[j].loaded {
        assert slots[j].page != q;
      }
    }
    forall p | 0 <= p < PagesOf(data) ensures Current(slots', frames, data', p) == Current(slots, frames, data, p) {
      FindSame(slots, slots', p, 0);
      if p == q { FindUnique(slots, q, i); }
    }
    assert View(slots', frames, data').pages == View(slots, frames, data).pages;
  }

  // A clean slot can be given up whatever happens to its frame.
  lemma Evict(slots: seq<Slot>, frames: seq<Page>, data: seq<Byte>, i: nat, slot: Slot, frame: Page)
    requires Inv(slots, frames, data) && i < |slots| && !slots[i].dirty
    requires !slot.loaded && !slot.dirty && |frame| == PAGE
    ensures Inv(slots[i := slot], frames[i := frame], data)
    ensures View(slots[i := slot], frames[i := frame], data) == View(slots, frames, data)
  {
    var slots', frames' := slots[i := slot], frames[i := frame];
    assert SlotOk(slots[i], i, frames, data);
    forall j | 0 <= j < |slots| ensures SlotOk(slots'[j], j, frames', data) {
      assert SlotOk(slots[j], j, frames, data);
    }
    forall p | 0 <= p < PagesOf(data) ensures Current(slots', frames', data, p) == Current(slots, frames, data, p) {
      var k := Find(slots, p);
      if k < |slots| && k != i {
        assert slots'[k].loaded && Distinct(slots');
        FindUnique(slots', p, k);
      }
    }
    assert View(slots', frames', data).pages == View(slots, frames, data).pages;
  }

  // A page that is not loaded may be installed in an empty slot with the file's bytes.
  lemma Install(slots: seq<Slot>, frames: seq<Page>, data: seq<Byte>, i: nat, p: nat)
    requires Inv(slots, frames, data) && i < |slots| && !slots[i].loaded
    requires p < PagesOf(data) && p < PAGE_IDS && Find(slots, p) == |slots|
    requires frames[i] == PageAt(data, p)
    ensures var slots' := slots[i := Slot(i, p, false, false, true)];
            Inv(slots', frames, data) && View(slots', frames, data) == View(slots, frames, data)
  {
    var slots' := slots[i := Slot(i, p, false, false, true)];
    forall j | 0 <= j < |slots| ensures SlotOk(slots'[j], j, frames, data) {
      assert SlotOk(slots[j], j, frames, data);
    }
    assert Distinct(slots');
    forall q | 0 <= q < PagesOf(data) ensures Current(slots', frames, data, q) == Current(slots, frames, data, q) {
      if q == p {
        FindUnique(slots', p, i);
      } else if Find(slots, q) < |slots| {
        FindUnique(slots', q, Find(slots, q));
      }
    }
    assert View(slots', frames, data).pages == View(slots, frames, data).pages;
  }

  // A client changes a loaded frame and marks its page dirty: exactly that page changes.
  lemma ClientChange(slots: seq<Slot>, frames: seq<Page>, data: seq<Byte>, i: nat, frame: Page)
    requires Inv(slots, frames, data) && i < |slots| && slots[i].loaded && |frame| == PAGE
    ensures var slots' := slots[i := slots[i].(dirty := true)];
            var v, v' := View(slots, frames, data), View(slots', frames[i := frame], data);
            && Inv(slots', frames[i := frame], data)
            && slots[i].page < |v.pages|
            && v' == v.(pages := v.pages[slots[i].page := frame])
  {
    var slots', frames' := slots[i := slots[i].(dirty := true)], frames[i := frame];
    assert SlotOk(slots[i], i, frames, data);
    forall j | 0 <= j < |slots| ensures SlotOk(slots'[j], j, frames', data) {
      assert SlotOk(slots[j], j, frames, data);
    }
    assert Distinct(slots');
    FindUnique(slots', slots[i].page, i);
    forall q | 0 <= q < PagesOf(data) && q != slots[i].page
      ensures Current(slots', frames', data, q) == Current(slots, frames, data, q)
    {
      FindSame(slots, slots', q, 0);
    }
    var v, v' := View(slots, frames, data), View(slots', frames', data);
    assert v'.pages == v.pages[slots[i].page := frame];
  }

  // With nothing dirty the file alone is the view: what a later session reads.
  lemma CleanFile(slots: seq<Slot>, frames: seq<Page>, data: seq<Byte>)
    requires Inv(slots, frames, data) && (forall i :: 0 <= i < |slots| ==> !slots[i].dirty)
    ensures View(slots, frames, data) == StoreOf(data)
  {
    forall p | 0 <= p < PagesOf(data) ensures Current(slots, frames, data, p) == PageAt(data, p) {
      var i := Find(slots, p);
      if i < |slots| { assert SlotOk(slots[i], i, frames, data); }
    }
    assert View(slots, frames, data).pages == StoreOf(data).pages;
  }

  // One page more at the end: the old tail followed by zeros.
  function Grown(v: Store): (r: Store)
    requires |v.tail| < PAGE
    ensures |r.pages| == |v.pages| + 1 && r.tail == []
  {
    Store(v.pages + [v.tail + seq(PAGE - |v.tail|, _ => 0 as Byte)], [])
  }

  // A client's write into page p.
  function Patched(v: Store, p: nat, offset: nat, src: seq<Byte>): (r: Store)
    requires p < |v.pages| && offset + |src| <= |v.pages[p]|
    ensures |r.pages| == |v.pages|
  {
    v.(pages := v.pages[p := v.pages[p][..offset] + src + v.pages[p][offset + |src|..]])
  }

  lemma Grow(slots: seq<Slot>, frames: seq<Page>, data: seq<Byte>)
    requires Inv(slots, frames, data)
    ensures var data' := Resize(data, (PagesOf(data) + 1) * PAGE);
            && Inv(slots, frames, data')
            && PagesOf(data') == PagesOf(data) + 1
            && View(slots, frames, data') == Grown(View(slots, frames, data))
  {
    var n := PagesOf(data);
    var data' := Resize(data, (n + 1) * PAGE);
    assert PagesOf(data') == n + 1;
    assert data' == data + seq((n + 1) * PAGE - |data|, _ => 0);
    forall p | 0 <= p < n ensures PageAt(data', p) == PageAt(data, p) {
      assert (p + 1) * PAGE <= |data|;
    }
    forall j | 0 <= j < |slots| ensures SlotOk(slots[j], j, frames, data') {
      assert SlotOk(slots[j], j, frames, data);
    }
    var v := View(slots, frames, data);
    forall q | 0 <= q <= n ensures View(slots, frames, data').pages[q] == Grown(v).pages[q] {
      if q == n {
        assert forall k :: 0 <= k < |slots| ==> SlotOk(slots[k], k, frames, data);
        assert data'[n * PAGE..] == data[n * PAGE..] + seq((n + 1) * PAGE - |data|, _ => 0);
        assert PageAt(data', n) == data'[n * PAGE..];
      }
    }
    assert View(slots, frames, data').pages == Grown(v).pages;
  }

  // ----- replacement -----

  function DirtyCount(slots: seq<Slot>): (n: nat)
    ensures n <= |slots|
  {
    if slots == [] then 0 else (if slots[0].dirty then 1 else 0) + DirtyCount(slots[1..])
  }

  lemma {:induction false} DirtyCountSame(a: seq<Slot>, b: seq<Slot>)
    requires |a| == |b| && forall i :: 0 <= i < |a| ==> a[i].dirty == b[i].dirty
    ensures DirtyCount(a) == DirtyCount(b)
  {
    if a != [] { DirtyCountSame(a[1..], b[1..]); }
  }

  lemma {:induction false} DirtyCountCleaned(slots: seq<Slot>, i: nat, clean: Slot)
    requires i < |slots| && slots[i].dirty && !clean.dirty
    ensures DirtyCount(slots[i := clean]) == DirtyCount(slots) - 1
  {
    if i == 0 {
      assert slots[i := clean][1..] == slots[1..];
    } else {
      assert slots[i := clean][1..] == slots[1..][i - 1 := clean];
      DirtyCountCleaned(slots[1..], i - 1, clean);
    }
  }

  lemma {:induction false} DirtyCountZero(slots: seq<Slot>)
    ensures DirtyCount(slots) == 0 <==> forall i :: 0 <= i < |slots| ==> !slots[i].dirty
  {
    if slots != [] {
      DirtyCountZero(slots[1..]);
      assert forall i :: 1 <= i < |slots| ==> slots[i] == slots[1..][i - 1];
    }
  }

  // What one turn of the clock hand makes of a slot: behind the hand a clean slot has lost its
  // access bit, and had one; ahead of it nothing has changed.
  predicate TurnedPast(was: Slot, access: bool, behind: bool)
  {
    if behind then (was.dirty || was.access) && access == (was.dirty && was.access) else access == was.access
  }

  predicate DirtyPageId(slots: seq<Slot>, p: nat, nPages: nat)
  {
    p < nPages && Find(slots, p) < |slots| && slots[Find(slots, p)].dirty
  }

  // When a load finds no slot: every slot was accessed since the hand last passed and there is
  // nothing to write back, or the only slot is both dirty and accessed.
  ghost predicate OutOfRoom(slots: seq<Slot>)
  {
    && (forall i :: 0 <= i < |slots| ==> slots[i].access)
    && (|slots| <= 1 || forall i :: 0 <= i < |slots| ==> !slots[i].dirty)
  }

  // From 65536 pages on the 16-bit sentinel is a real page id, and its page is the only one that is ever
  // written back. A load then finds no slot when no slot is clean and unaccessed and writing that page back,
  // if it is loaded and dirty, frees none: its slot is accessed, and there is no clean one to lose its bit.
  ghost predicate SentinelBlocks(slots: seq<Slot>, nPages: nat)
  {
    var d := Find(slots, nPages % PAGE_IDS);
    && (forall i :: 0 <= i < |slots| ==> slots[i].dirty || slots[i].access)
    && (DirtyPageId(slots, nPages % PAGE_IDS, nPages) ==>
          slots[d].access && forall i :: 0 <= i < |slots| && i != d ==> slots[i].dirty)
  }

  // When a load without a fault finds no slot.
  ghost predicate NoRoom(slots: seq<Slot>, nPages: nat)
  {
    if nPages < PAGE_IDS then OutOfRoom(slots) else SentinelBlocks(slots, nPages)
  }

  // Every slot is clean and unaccessed: the next load of an existing page finds room.
  ghost predicate Rested(slots: seq<Slot>)
  {
    forall i :: 0 <= i < |slots| ==> !slots[i].dirty && !slots[i].access
  }

  // A turn that finds no slot, followed by one write-back, does not change whether the load will succeed.
  lemma OutOfRoomStep(slots: seq<Slot>, now: seq<Slot>, i: nat)
    requires SameIdentity(slots, now) && i < |slots| && slots[i].dirty
    requires forall j :: 0 <= j < |slots| ==> TurnedPast(slots[j], now[j].access, true)
    ensures OutOfRoom(now[i := now[i].(dirty := false)]) == OutOfRoom(slots)
  {
    var after := now[i := now[i].(dirty := false)];
    assert slots[i].dirty && TurnedPast(slots[i], now[i].access, true);
    if |slots| > 1 {
      assert !OutOfRoom(slots);
      var k := if i == 0 then 1 else 0;
      assert after[k] == now[k] && (now[k].access ==> now[k].dirty);
      assert !OutOfRoom(after);
    } else {
      assert after[0].access == slots[0].access;
    }
  }

  // The same for the page of the sentinel.
  lemma SentinelStep(slots: seq<Slot>, now: seq<Slot>, nPages: nat)
    requires SameIdentity(slots, now) && nPages >= PAGE_IDS && DirtyPageId(now, nPages % PAGE_IDS, nPages)
    requires forall j :: 0 <= j < |slots| ==> TurnedPast(slots[j], now[j].access, true)
    ensures var d := Find(now, nPages % PAGE_IDS);
            SentinelBlocks(now[d := now[d].(dirty := false)], nPages) == SentinelBlocks(slots, nPages)
  {
    var s := nPages % PAGE_IDS;
    var d := Find(now, s);
    var after := now[d := now[d].(dirty := false)];
    FindSame(slots, now, s, 0);
    FindSame(now, after, s, 0);
    assert slots[d].dirty && TurnedPast(slots[d], now[d].access, true) && after[d].access == slots[d].access;
    assert !DirtyPageId(after, s, nPages);
    forall j | 0 <= j < |slots| && j != d ensures (after[j].dirty || after[j].access) == slots[j].dirty {
      assert TurnedPast(slots[j], now[j].access, true);
    }
    if SentinelBlocks(after, nPages) {
      assert forall j :: 0 <= j < |slots| && j != d ==> slots[j].dirty == (after[j].dirty || after[j].access);
      assert after[d].access;
    }
  }
}
