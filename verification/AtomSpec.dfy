/** The atom table of atom_table.c as a sequence of slots, and the dictionary it is. */
module AtomSpec {
  import opened Wrappers
  import opened FileSystem
  import opened Cyclic

  const MAX_ATOM_SIZE: nat := 384   // AT_MAX_ATOM_SIZE

  // The bytes of an atom; a slot of length 0 is free.
  type Atom = seq<Byte>

  const NUL: Atom := [78, 85, 76]   // the preset atom of slot 0

  // One step of the PJW hash of AT_Hash on a uint32_t.
  function Mix(h: bv32, b: Byte): bv32 {
    var g := 16 * h + (b as bv32);
    g ^ ((g >> 24) & 0xF0)
  }

  function HashState(s: Atom): bv32 {
    if s == [] then 0 else Mix(HashState(s[..|s| - 1]), s[|s| - 1])
  }

  // AT_Hash
  function Hash(s: Atom): nat {
    (HashState(s) & 0xfff_ffff) as nat
  }

  lemma HashStep(s: Atom, h: bv32, b: Byte, h': bv32)
    requires HashState(s) == h && Mix(h, b) == h'
    ensures HashState(s + [b]) == h'
  {
    assert (s + [b])[..|s|] == s;
  }

  lemma HashOfNul()
    ensures HashState(NUL) == 0x539c
  {
    HashStep([], 0, 78, 0x4e);
    HashStep([] + [78], 0x4e, 85, 0x535);
    HashStep([] + [78] + [85], 0x535, 76, 0x539c);
    assert [] + [78] + [85] + [76] == NUL;
  }

  lemma HashOfFour()
    ensures HashState([115, 116, 97, 116]) == 0x7_aa84
  {
    var s: Atom := [115, 116];
    HashStep([], 0, 115, 0x73);
    HashStep([] + [115], 0x73, 116, 0x7a4);
    assert [] + [115] + [116] == s;
    HashStep(s, 0x7a4, 97, 0x7aa1);
    HashStep(s + [97], 0x7aa1, 116, 0x7_aa84);
    assert s + [97] + [116] == [115, 116, 97, 116];
  }

  lemma HashOfEight()
    ensures HashState([115, 116, 97, 116, 101, 47, 111, 110]) == 0xaa8a_83fe
  {
    HashOfFour();
    var s: Atom := [115, 116, 97, 116];
    HashStep(s, 0x7_aa84, 101, 0x7a_a8a5);
    HashStep(s + [101], 0x7a_a8a5, 47, 0x7aa_8a7f);
    HashStep(s + [101] + [47], 0x7aa_8a7f, 111, 0x7aa8_a82f);
    HashStep(s + [101] + [47] + [111], 0x7aa8_a82f, 110, 0xaa8a_83fe);
    assert s + [101] + [47] + [111] + [110] == [115, 116, 97, 116, 101, 47, 111, 110];
  }

  // Known hashes: that of NUL is its value as a number of base 16; in that of "state/on" the bits that leave
  // the upper end come back at the lower one.
  lemma KnownHashes()
    ensures Hash(NUL) == (78 * 16 + 85) * 16 + 76
    ensures Hash([115, 116, 97, 116, 101, 47, 111, 110]) == 0xa8a_83fe
  {
    HashOfNul();
    HashOfEight();
    hide HashState;
  }

  // The slot examined at step k of the linear probe for d.
  function ProbeSlot(d: Atom, k: nat, n: nat): (i: nat)
    requires n > 0
    ensures i < n
  {
    (Hash(d) + k) % n
  }

  // The step at which the probe for d meets d or a free slot, or |table|.
  function ProbeFrom(table: seq<Atom>, d: Atom, k: nat): (r: nat)
    requires k <= |table|
    ensures k <= r <= |table|
    ensures r < |table| ==> table[ProbeSlot(d, r, |table|)] in {d, []}
    ensures forall j :: k <= j < r ==> table[ProbeSlot(d, j, |table|)] !in {d, []}
    decreases |table| - k
  {
    if k == |table| || table[ProbeSlot(d, k, |table|)] in {d, []} then k else ProbeFrom(table, d, k + 1)
  }

  function Probe(table: seq<Atom>, d: Atom): (r: nat)
    ensures r <= |table|
    ensures r < |table| ==> table[ProbeSlot(d, r, |table|)] in {d, []}
    ensures forall j :: 0 <= j < r ==> table[ProbeSlot(d, j, |table|)] !in {d, []}
  {
    ProbeFrom(table, d, 0)
  }

  // AT_GetAtomIndex
  function Find(table: seq<Atom>, d: Atom): (r: Option<nat>)
    ensures r.Some? ==> r.value < |table| && table[r.value] == d && d != []
  {
    if |d| == 0 || |d| > MAX_ATOM_SIZE then None
    else
      var k := Probe(table, d);
      if k < |table| && table[ProbeSlot(d, k, |table|)] == d then Some(ProbeSlot(d, k, |table|)) else None
  }

  // AT_AddAtom: the table afterwards and the index it reports.
  function Add(table: seq<Atom>, count: nat, d: Atom): (r: (seq<Atom>, Option<nat>))
    ensures |r.0| == |table|
  {
    if |d| == 0 || |d| > MAX_ATOM_SIZE || count >= |table| then (table, None)
    else
      var k := Probe(table, d);
      if k == |table| then (table, None)
      else (table[ProbeSlot(d, k, |table|) := d], Some(ProbeSlot(d, k, |table|)))
  }

  function Filled(table: seq<Atom>): (n: nat)
    ensures n <= |table|
  {
    if table == [] then 0 else Filled(table[..|table| - 1]) + if table[|table| - 1] == [] then 0 else 1
  }

  // Every atom added is found at its own slot. Slot 0 is preset, wherever its hash leads.
  ghost predicate Inv(table: seq<Atom>, count: nat) {
    && table != [] && table[0] == NUL
    && count + 1 == Filled(table)
    && forall i :: 0 < i < |table| && table[i] != [] ==> Find(table, table[i]) == Some(i)
  }

  function Initial(n: nat): (t: seq<Atom>)
    requires n > 0
    ensures |t| == n
  {
    [NUL] + seq(n - 1, _ => [])
  }

  lemma {:induction false} FilledUpdate(table: seq<Atom>, i: nat, d: Atom)
    requires i < |table| && d != []
    ensures Filled(table[i := d]) == Filled(table) + if table[i] == [] then 1 else 0
  {
    var n := |table| - 1;
    if i < n {
      assert table[i := d][..n] == table[..n][i := d];
      FilledUpdate(table[..n], i, d);
    } else {
      assert table[i := d][..n] == table[..n];
    }
  }

  lemma {:induction false} FilledAll(table: seq<Atom>)
    ensures Filled(table) == |table| <==> forall i :: 0 <= i < |table| ==> table[i] != []
  {
    if table != [] {
      var n := |table| - 1;
      FilledAll(table[..n]);
      assert forall i :: 0 <= i < n ==> table[..n][i] == table[i];
    }
  }

  lemma {:induction false} FilledInitial(n: nat)
    requires n > 0
    ensures Filled(Initial(n)) == 1
  {
    if n > 1 {
      assert Initial(n)[..n - 1] == Initial(n - 1);
      FilledInitial(n - 1);
    }
  }

  lemma InitialInv(n: nat)
    requires n > 0
    ensures Inv(Initial(n), 0)
  {
    FilledInitial(n);
  }

  // Filling a free slot does not disturb a probe that ends in a hit.
  lemma HitStable(table: seq<Atom>, e: nat, d: Atom, a: Atom)
    requires e < |table| && table[e] == [] && d != [] && Find(table, a).Some?
    ensures Find(table[e := d], a) == Find(table, a)
  {
    var table' := table[e := d];
    var k := Probe(table, a);
    forall j | 0 <= j < k ensures table'[ProbeSlot(a, j, |table|)] !in {a, []} {
      assert table[ProbeSlot(a, j, |table|)] !in {a, []};
    }
    assert Probe(table', a) == k;
  }

  lemma AddHits(table: seq<Atom>, count: nat, d: Atom)
    requires Add(table, count, d).1.Some?
    ensures Find(Add(table, count, d).0, d) == Add(table, count, d).1
  {
    var k := Probe(table, d);
    var i := ProbeSlot(d, k, |table|);
    var table' := table[i := d];
    forall j | 0 <= j < k ensures table'[ProbeSlot(d, j, |table|)] !in {d, []} {
      assert table[ProbeSlot(d, j, |table|)] !in {d, []};
    }
    assert Probe(table', d) == k;
  }

  // How the atom count moves: the code counts the slots it fills.
  function CountAfter(table: seq<Atom>, count: nat, d: Atom): nat {
    var (table', index) := Add(table, count, d);
    if index.Some? && table[index.value] == [] then count + 1 else count
  }

  lemma AddKeeps(table: seq<Atom>, count: nat, d: Atom)
    requires Inv(table, count)
    ensures Inv(Add(table, count, d).0, CountAfter(table, count, d))
  {
    var (table', index) := Add(table, count, d);
    if index.Some? {
      var e := index.value;
      FilledUpdate(table, e, d);
      if table[e] == [] {
        AddHits(table, count, d);
        forall i | 0 < i < |table| && table'[i] != [] ensures Find(table', table'[i]) == Some(i) {
          if i != e { HitStable(table, e, d, table[i]); }
        }
      } else {
        assert table' == table;
      }
    }
  }

  // The probe runs over all slots.
  lemma ProbeReaches(d: Atom, n: nat, i: nat) returns (k: nat)
    requires i < n
    ensures k < n && ProbeSlot(d, k, n) == i
  {
    k := StepsTo(Hash(d) % n, i, n);
    Reaches(Hash(d), i, n);
  }

  lemma FreeSlotStopsProbe(table: seq<Atom>, d: Atom, i: nat)
    requires i < |table| && table[i] == []
    ensures Probe(table, d) < |table|
  {
    var k := ProbeReaches(d, |table|, i);
    assert table[ProbeSlot(d, k, |table|)] in {d, []};
  }

  // When adding succeeds: for an atom of admissible size that is known or meets a free slot. The count
  // never stops an addition, since slot 0 is not counted.
  lemma AddSucceeds(table: seq<Atom>, count: nat, d: Atom)
    requires Inv(table, count)
    ensures Add(table, count, d).1.Some? <==>
              0 < |d| <= 384 && (Find(table, d).Some? || count + 1 < |table|)
  {
    FilledAll(table);
    if 0 < |d| <= MAX_ATOM_SIZE {
      if count + 1 < |table| {
        var i :| 0 <= i < |table| && table[i] == [];
        FreeSlotStopsProbe(table, d, i);
      } else {
        assert forall i :: 0 <= i < |table| ==> table[i] != [];
      }
    }
  }

  // Lookup finds exactly what was added; behind slot 0 only the preset atom is found, if its hash leads there.
  lemma FindsExactlyAdded(table: seq<Atom>, count: nat, d: Atom)
    requires Inv(table, count) && d != []
    ensures Find(table, d) in {None, Some(0)} <==> forall i :: 0 < i < |table| ==> table[i] != d
    ensures Find(table, d) == Some(0) ==> d == NUL
  {
    if Find(table, d).Some? {
      assert table[Find(table, d).value] == d;
    }
  }

  // The preset atom, never added, is found exactly when every slot of its probe before slot 0 is in use.
  lemma PresetLookup(table: seq<Atom>, count: nat)
    requires Inv(table, count) && forall i :: 0 < i < |table| ==> table[i] != NUL
    ensures Find(table, NUL) == Some(0) <==>
              forall k :: 0 <= k < StepsTo(Hash(NUL) % |table|, 0, |table|) ==> table[ProbeSlot(NUL, k, |table|)] != []
  {
    hide Hash, Inv, Filled, Probe, ProbeSlot;
    PresetSlot(table, count);
    var n := |table|;
    var steps, r := StepsTo(Hash(NUL) % n, 0, n), Probe(table, NUL);
    BeforeSlotZero(NUL, n);
    if r < steps {
      assert table[ProbeSlot(NUL, r, n)] == [];
    } else {
      assert r == steps;
    }
  }

  // The probe passes slot 0 once, at this step.
  lemma BeforeSlotZero(d: Atom, n: nat)
    requires n > 0
    ensures var steps := StepsTo(Hash(d) % n, 0, n);
            ProbeSlot(d, steps, n) == 0 && forall k :: 0 <= k < steps ==> ProbeSlot(d, k, n) != 0
  {
    hide Hash;
    var h := Hash(d);
    var s, t := h % n, h / n;
    Reaches(h, 0, n);
    forall k | 0 <= k < StepsTo(s, 0, n) ensures ProbeSlot(d, k, n) != 0 {
      assert h + k == n * t + (s + k);
      WholeTurns(s + k, n, t);
      OneTurnModulo(s, k, n);
    }
  }

  lemma PresetSlot(table: seq<Atom>, count: nat)
    requires Inv(table, count)
    ensures table != [] && table[0] == NUL
  {
  }

  // In the initial table only if its hash leads to slot 0 at once.
  lemma PresetInitially(n: nat)
    requires n > 0
    ensures Find(Initial(n), NUL) == if Hash(NUL) % n == 0 then Some(0) else None
  {
    hide Hash;
    var table := Initial(n);
    assert ProbeSlot(NUL, 0, n) == Hash(NUL) % n;
    assert Probe(table, NUL) == 0;
  }

  // No two added slots hold the same atom.
  lemma Injective(table: seq<Atom>, count: nat, i: nat, j: nat)
    requires Inv(table, count) && 0 < i < |table| && 0 < j < |table|
    requires table[i] != [] && table[i] == table[j]
    ensures i == j
  {
    assert Find(table, table[i]) == Some(i) && Find(table, table[j]) == Some(j);
  }

  // ----- runs -----

  function AddAll(table: seq<Atom>, count: nat, ds: seq<Atom>): (r: (seq<Atom>, nat))
    ensures |r.0| == |table|
    decreases |ds|
  {
    if ds == [] then (table, count)
    else AddAll(Add(table, count, ds[0]).0, CountAfter(table, count, ds[0]), ds[1..])
  }

  lemma AddStable(table: seq<Atom>, count: nat, d: Atom, a: Atom)
    ensures var table' := Add(table, count, d).0;
            && (forall i :: 0 <= i < |table| && table[i] != [] ==> table'[i] == table[i])
            && (Find(table, a).Some? ==> Find(table', a) == Find(table, a))
  {
    var (table', index) := Add(table, count, d);
    if index.Some? {
      if table[index.value] == [] {
        if Find(table, a).Some? { HitStable(table, index.value, d, a); }
      } else {
        assert table' == table;
      }
    }
  }

  // The dictionary only grows: bytes behind an index stay, and an index once found stays the answer.
  lemma {:induction false} AppendOnly(table: seq<Atom>, count: nat, ds: seq<Atom>, a: Atom)
    requires Inv(table, count)
    ensures var (table', count') := AddAll(table, count, ds);
            && Inv(table', count')
            && (forall i :: 0 <= i < |table| && table[i] != [] ==> table'[i] == table[i])
            && (Find(table, a).Some? ==> Find(table', a) == Find(table, a))
    decreases |ds|
  {
    if ds != [] {
      var table1 := Add(table, count, ds[0]).0;
      AddKeeps(table, count, ds[0]);
      AddStable(table, count, ds[0], a);
      AppendOnly(table1, CountAfter(table, count, ds[0]), ds[1..], a);
    }
  }

  // An atom added on the way is found ever after, at the index reported then.
  lemma AddedStaysFound(table: seq<Atom>, count: nat, d: Atom, ds: seq<Atom>)
    requires Inv(table, count) && Add(table, count, d).1.Some?
    ensures Find(AddAll(table, count, [d] + ds).0, d) == Add(table, count, d).1
  {
    AddHits(table, count, d);
    AddKeeps(table, count, d);
    AppendOnly(Add(table, count, d).0, CountAfter(table, count, d), ds, d);
    assert ([d] + ds)[1..] == ds;
  }
}
