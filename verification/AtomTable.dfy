/** The hash table and page allocator of atom_table.c. */
module AtomTable {
  import opened FileSystem
  import opened AtomSpec

  const PAGE_SIZE: nat := 4088   // ATOM_PAGE_SIZE

  // AT_Atom: a length and a pointer, given by the page it points into and the offset there.
  datatype Entry = Entry(len: nat, page: nat, off: nat)

  type Page = array<Byte>

  ghost predicate DistinctPages(pages: seq<Page>) {
    forall i, j :: 0 <= i < j < |pages| ==> pages[i] != pages[j]
  }

  // The entry denotes atom a, zero terminated, outside the free part of the newest page.
  ghost predicate Stored(e: Entry, a: Atom, pages: seq<Page>, beg: nat)
    reads pages
  {
    && e.len == |a| <= MAX_ATOM_SIZE
    && (a != [] ==>
          && e.page < |pages| && e.off + e.len < pages[e.page].Length
          && (e.page == |pages| - 1 ==> e.off + e.len < beg)
          && pages[e.page][e.off..e.off + e.len] == a
          && pages[e.page][e.off + e.len] == 0)
  }

  // Two entries share no byte, terminators included.
  ghost predicate Apart(e: Entry, f: Entry) {
    e.page != f.page || e.off + e.len < f.off || f.off + f.len < e.off
  }

  ghost predicate AllApart(es: seq<Entry>) {
    forall i, j :: 0 <= i < j < |es| && es[i].len > 0 && es[j].len > 0 ==> Apart(es[i], es[j])
  }

  lemma ApartUpdate(es: seq<Entry>, idx: nat, e: Entry)
    requires idx < |es| && AllApart(es)
    requires forall i :: 0 <= i < |es| && es[i].len > 0 ==> Apart(es[i], e) && Apart(e, es[i])
    ensures AllApart(es[idx := e])
  {
  }

  // AT_Hash
  method HashOf(s: Atom) returns (h: nat)
    ensures h == Hash(s)
  {
    hide Mix;
    var state: bv32 := 0;
    for i := 0 to |s|
      invariant state == HashState(s[..i])
    {
      assert s[..i + 1][..i] == s[..i];
      state := Mix(state, s[i]);
    }
    assert s[..|s|] == s;
    h := (state & 0xfff_ffff) as nat;
  }

  class AtomTable {
    const table: array<Entry>
    var pages: seq<Page>        // atom_pages, the newest last
    var beg: nat                // atom_page_beg, as an offset into the newest page
    var atomCount: nat
    ghost var atoms: seq<Atom>

    ghost predicate Valid()
      reads this, table, pages
    {
      && |atoms| == table.Length && Inv(atoms, atomCount)
      && Memory() && AllApart(table[..])
      && forall i :: 0 <= i < |atoms| ==> Stored(table[i], atoms[i], pages, beg)
    }

    ghost predicate Memory()
      reads this, pages
    {
      && pages != [] && beg <= PAGE_SIZE && DistinctPages(pages)
      && forall p :: 0 <= p < |pages| ==> pages[p].Length == PAGE_SIZE && pages[p] as object != table
    }

    // AT_Init
    constructor (maxAtoms: nat)
      requires maxAtoms > 0
      ensures Valid() && atoms == Initial(maxAtoms) && atomCount == 0
      ensures fresh(table) && forall p :: p in pages ==> fresh(p)
    {
      table := new Entry[maxAtoms](_ => Entry(0, 0, 0));
      var page := new Byte[PAGE_SIZE](_ => 0);
      pages, beg, atomCount, atoms := [page], |NUL| + 1, 0, Initial(maxAtoms);
      new;
      table[0] := Entry(|NUL|, 0, 0);
      page[0], page[1], page[2], page[3] := NUL[0], NUL[1], NUL[2], 0;
      InitialInv(maxAtoms);
      assert page[0..3] == NUL;
    }

    // AT_AllocPageData: room for size bytes and a terminator in the newest page.
    method AllocPageData(size: nat) returns (off: nat)
      requires Memory() && size < PAGE_SIZE
      modifies this`pages, this`beg
      ensures Memory() && old(pages) <= pages && forall p :: p in pages && p !in old(pages) ==> fresh(p)
      ensures if old(beg) + size + 1 > PAGE_SIZE then |pages| == |old(pages)| + 1 && off == 0
              else pages == old(pages) && off == old(beg)
      ensures beg == off + size + 1
    {
      if beg + size + 1 > PAGE_SIZE {
        var page := new Byte[PAGE_SIZE](_ => 0);
        pages, beg := pages + [page], 0;
      }
      off := beg;
      beg := beg + size + 1;
    }

    // The probe loop shared by AT_AddAtom and AT_GetAtomIndex: the slot where it stops, or the table size.
    method ProbeTable(data: Atom) returns (idx: nat)
      requires Valid() && 0 < |data| <= MAX_ATOM_SIZE
      ensures var k := Probe(atoms, data); idx == if k < |atoms| then ProbeSlot(data, k, |atoms|) else |atoms|
    {
      hide Inv, AllApart, DistinctPages;
      var hash := HashOf(data);
      var i := 0;
      while i < table.Length
        invariant i <= |atoms| && ProbeFrom(atoms, data, i) == Probe(atoms, data)
      {
        idx := (hash + i) % table.Length;
        assert idx == ProbeSlot(data, i, |atoms|) && Stored(table[idx], atoms[idx], pages, beg);
        var e := table[idx];
        if e.len == |data| {
          if pages[e.page][e.off..e.off + e.len] == data {
            return;
          }
        } else if e.len == 0 {
          return;
        }
        i := i + 1;
      }
      idx := table.Length;
    }

    // AT_GetAtomIndex
    method GetAtomIndex(data: Atom) returns (ok: bool, index: nat)
      requires Valid()
      ensures ok == Find(atoms, data).Some?
      ensures index == if ok then Find(atoms, data).value else 0
    {
      hide Inv, AllApart, DistinctPages;
      ok, index := false, 0;
      if 0 < |data| <= MAX_ATOM_SIZE {
        var idx := ProbeTable(data);
        if idx < table.Length {
          assert Stored(table[idx], atoms[idx], pages, beg);
          if table[idx].len != 0 {
            ok, index := true, idx;
          }
        }
      }
    }

    // AT_GetAtomByIndex: an index outside the table gives a zero-length atom.
    method GetAtomByIndex(index: nat) returns (a: Atom)
      requires Valid()
      ensures a == if index < |atoms| then atoms[index] else []
    {
      a := [];
      if index < table.Length {
        var e := table[index];
        assert Stored(e, atoms[index], pages, beg);
        if e.len > 0 {
          a := pages[e.page][e.off..e.off + e.len];
        }
      }
    }

    // The branch of AT_AddAtom that fills a free slot.
    method FillSlot(idx: nat, data: Atom)
      requires Valid() && 0 < |data| <= MAX_ATOM_SIZE && idx < |atoms| && atoms[idx] == []
      requires Inv(atoms[idx := data], atomCount + 1)
      modifies this, table, pages
      ensures Valid() && atoms == old(atoms)[idx := data] && atomCount == old(atomCount) + 1
      ensures forall i :: 0 <= i < table.Length && i != idx ==> table[i] == old(table[i])
      ensures old(pages) <= pages && forall p :: p in pages && p !in old(pages) ==> fresh(p)
    {
      hide Inv, Find, Probe;
      ghost var es, pages0, beg0 := table[..], pages, beg;
      assert forall i :: 0 <= i < |atoms| ==> Stored(es[i], atoms[i], pages0, beg0);
      var off := AllocPageData(|data|);
      forall i | 0 <= i < |atoms| ensures Stored(es[i], atoms[i], pages, off) {
        assert Stored(es[i], atoms[i], pages0, beg0);
      }
      assert pages[|pages| - 1] in pages;
      WriteAtom(off, data);
      assert table[..] == es;
      Publish(idx, Entry(|data|, |pages| - 1, off), data);
    }

    method Publish(idx: nat, e: Entry, ghost data: Atom)
      requires Memory() && AllApart(table[..]) && idx < |atoms| == table.Length
      requires Inv(atoms[idx := data], atomCount + 1) && Stored(e, data, pages, beg)
      requires forall i :: 0 <= i < |atoms| ==> Stored(table[i], atoms[i], pages, beg)
      requires forall i :: 0 <= i < |atoms| && table[i].len > 0 ==> Apart(table[i], e) && Apart(e, table[i])
      modifies table, this`atomCount, this`atoms
      ensures table[..] == old(table[..])[idx := e]
      ensures Valid() && atoms == old(atoms)[idx := data] && atomCount == old(atomCount) + 1
    {
      hide Inv, Find, Probe, Stored;
      ghost var es := table[..];
      assert forall p :: 0 <= p < |pages| ==> pages[p] as object != table;
      assert forall i :: 0 <= i < |es| ==> Stored(es[i], atoms[i], pages, beg);
      table[idx] := e;
      assert table[..] == es[idx := e];
      ApartUpdate(es, idx, e);
      atomCount := atomCount + 1;
      atoms := atoms[idx := data];
      forall i | 0 <= i < |atoms| ensures Stored(table[i], atoms[i], pages, beg) {
        assert i != idx ==> Stored(es[i], old(atoms)[i], pages, beg);
      }
    }

    // The bytes of the new atom go behind those of all others.
    method WriteAtom(off: nat, data: Atom)
      requires Memory() && |atoms| == table.Length && |data| <= MAX_ATOM_SIZE && beg == off + |data| + 1
      requires forall i :: 0 <= i < |atoms| ==> Stored(table[i], atoms[i], pages, off)
      modifies pages[|pages| - 1]
      ensures table[..] == old(table[..])
      ensures Stored(Entry(|data|, |pages| - 1, off), data, pages, beg)
      ensures forall i :: 0 <= i < |atoms| ==> Stored(table[i], atoms[i], pages, beg)
      ensures var e := Entry(|data|, |pages| - 1, off);
              forall i :: 0 <= i < |atoms| && table[i].len > 0 ==> Apart(table[i], e) && Apart(e, table[i])
    {
      ghost var es := table[..];
      var last := |pages| - 1;
      assert pages[last] as object != table;
      assert forall i :: 0 <= i < |es| ==> Stored(es[i], atoms[i], pages, off);
      CopyAtom(pages[last], off, data);
      assert table[..] == es;
      forall i | 0 <= i < |es| ensures Stored(es[i], atoms[i], pages, beg) {
        var f := es[i];
        assert old(Stored(f, atoms[i], pages, off));
        if atoms[i] != [] {
          assert f.page != last ==> pages[f.page] != pages[last];
          assert forall j :: f.off <= j <= f.off + f.len ==> pages[f.page][j] == old(pages[f.page][j]);
        }
      }
    }

    // AT_AddAtom
    method AddAtom(data: Atom) returns (ok: bool, index: nat)
      requires Valid()
      modifies this, table, pages
      ensures Valid()
      ensures var (atoms', found) := Add(old(atoms), old(atomCount), data);
              && atoms == atoms' && ok == found.Some? && index == (if ok then found.value else 0)
      ensures atomCount == CountAfter(old(atoms), old(atomCount), data)
      // clients keep the pointers of earlier lookups
      ensures forall i :: 0 <= i < table.Length && old(table[i].len) > 0 ==> table[i] == old(table[i])
      ensures old(pages) <= pages && forall p :: p in pages && p !in old(pages) ==> fresh(p)
    {
      hide Inv, AllApart, DistinctPages;
      ok, index := false, 0;
      if 0 < |data| <= MAX_ATOM_SIZE && atomCount < table.Length {
        var idx := ProbeTable(data);
        if idx < table.Length {
          AddKeeps(atoms, atomCount, data);
          assert Stored(table[idx], atoms[idx], pages, beg);
          ok, index := true, idx;
          if table[idx].len == 0 {
            FillSlot(idx, data);
          } else {
            assert atoms[idx := data] == atoms;
          }
        }
      }
    }
  }

  method CopyAtom(page: Page, off: nat, data: Atom)
    requires off + |data| < page.Length
    modifies page
    ensures page[off..off + |data|] == data && page[off + |data|] == 0
    ensures forall j :: 0 <= j < page.Length && !(off <= j <= off + |data|) ==> page[j] == old(page[j])
  {
    for i := 0 to |data|
      invariant forall j :: 0 <= j < i ==> page[off + j] == data[j]
      invariant forall j :: 0 <= j < page.Length && !(off <= j < off + i) ==> page[j] == old(page[j])
    {
      page[off + i] := data[i];
    }
    page[off + |data|] := 0;
  }
}
