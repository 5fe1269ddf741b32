/** The atom-backed strings of ustring.cpp, and when their equality is the equality of their bytes. */
module UString {
  import opened Wrappers
  import opened FileSystem
  import opened AtomSpec
  import opened AtomTable
  import opened NanBox

  // String headers on the heap, by address: the bytes of US_Header._str without the terminator.
  type Headers = map<nat, seq<Byte>>

  // An address malloc may return: 48 bits and aligned.
  predicate Address(p: nat) {
    0 < p < TYPE_UNIT && p % 4 == 0
  }

  // size()
  function SizeOf(w: NbWord, headers: Headers): nat {
    match TypeOf(w)
    case UStringPtr => if PtrOf(w) in headers then |headers[PtrOf(w)]| else 0
    case AtomPtr => LengthOf(w)
    case _ => 0
  }

  // What c_str() points to, up to its terminator.
  function CStr(w: NbWord, headers: Headers, atoms: seq<Atom>): seq<Byte> {
    match TypeOf(w)
    case UStringPtr => if PtrOf(w) in headers then headers[PtrOf(w)] else []
    case AtomPtr => if IndexOf(w) < |atoms| then atoms[IndexOf(w)] else []
    case _ => []
  }

  // operator==
  predicate Equal(v: NbWord, w: NbWord, headers: Headers, atoms: seq<Atom>) {
    if TypeOf(v) == AtomPtr && TypeOf(w) == AtomPtr then v == w
    else SizeOf(v, headers) == SizeOf(w, headers)
         && SizeOf(v, headers) <= |CStr(v, headers, atoms)| && SizeOf(w, headers) <= |CStr(w, headers, atoms)|
         && CStr(v, headers, atoms)[..SizeOf(v, headers)] == CStr(w, headers, atoms)[..SizeOf(w, headers)]
  }

  // The word of a string made by the C-string constructor.
  ghost predicate HeapString(w: NbWord, s: seq<Byte>, headers: Headers) {
    if s == [] then w == VALUE_NULL
    else exists p: nat :: Address(p) && w == PtrValue(p) && p in headers && headers[p] == s
  }

  // The word of a string made from an atom.
  ghost predicate AtomString(w: NbWord, s: Atom, atoms: seq<Atom>) {
    |atoms| <= INDEX_LIMIT && Find(atoms, s).Some? && w == AtomValue(Find(atoms, s).value, |s|)
  }

  lemma HeapStringReads(w: NbWord, s: seq<Byte>, headers: Headers, atoms: seq<Atom>)
    requires HeapString(w, s, headers)
    ensures TypeOf(w) != AtomPtr && SizeOf(w, headers) == |s| && CStr(w, headers, atoms) == s
  {
    if s != [] {
      var p: nat :| Address(p) && w == PtrValue(p) && p in headers && headers[p] == s;
      PtrRoundTrip(p);
    }
  }

  lemma AtomStringReads(w: NbWord, s: Atom, headers: Headers, atoms: seq<Atom>)
    requires AtomString(w, s, atoms)
    ensures TypeOf(w) == AtomPtr && SizeOf(w, headers) == |s| % 256 && CStr(w, headers, atoms) == s
  {
    AtomRoundTrip(Find(atoms, s).value, |s|);
  }

  // Two atoms, compared by their words alone, are equal exactly when their bytes are, whatever their length.
  lemma AtomsEqual(v: NbWord, a: Atom, w: NbWord, b: Atom, headers: Headers, atoms: seq<Atom>)
    requires AtomString(v, a, atoms) && AtomString(w, b, atoms)
    ensures Equal(v, w, headers, atoms) <==> a == b
  {
    AtomStringReads(v, a, headers, atoms);
    AtomStringReads(w, b, headers, atoms);
    AtomValueInjective(Find(atoms, a).value, |a|, Find(atoms, b).value, |b|);
  }

  // An atom and a heap string: only the low eight bits of the atom's length were kept.
  lemma AtomAndHeapEqual(v: NbWord, a: Atom, w: NbWord, s: seq<Byte>, headers: Headers, atoms: seq<Atom>)
    requires AtomString(v, a, atoms) && HeapString(w, s, headers)
    ensures Equal(v, w, headers, atoms) <==> s == a[..|a| % 256]
    ensures Equal(w, v, headers, atoms) <==> s == a[..|a| % 256]
  {
    AtomStringReads(v, a, headers, atoms);
    HeapStringReads(w, s, headers, atoms);
    assert s[..|s|] == s;
  }

  lemma HeapEqual(v: NbWord, r: seq<Byte>, w: NbWord, s: seq<Byte>, headers: Headers, atoms: seq<Atom>)
    requires HeapString(v, r, headers) && HeapString(w, s, headers)
    ensures Equal(v, w, headers, atoms) <==> r == s
  {
    HeapStringReads(v, r, headers, atoms);
    HeapStringReads(w, s, headers, atoms);
    assert r[..|r|] == r && s[..|s|] == s;
  }

  // The word denotes the byte string s.
  ghost predicate Denotes(w: NbWord, s: seq<Byte>, headers: Headers, atoms: seq<Atom>) {
    HeapString(w, s, headers) || AtomString(w, s, atoms)
  }

  // Equality of strings is equality of their bytes for every mix of heap strings and atoms, unless an atom
  // of 256 bytes or more meets a heap string.
  lemma EqualIsByteEquality(v: NbWord, r: seq<Byte>, w: NbWord, s: seq<Byte>, headers: Headers, atoms: seq<Atom>)
    requires Denotes(v, r, headers, atoms) && Denotes(w, s, headers, atoms)
    requires AtomString(v, r, atoms) && !AtomString(w, s, atoms) ==> |r| <= 255
    requires AtomString(w, s, atoms) && !AtomString(v, r, atoms) ==> |s| <= 255
    ensures Equal(v, w, headers, atoms) <==> r == s
  {
    hide Equal, HeapString, AtomString;
    if AtomString(v, r, atoms) && AtomString(w, s, atoms) {
      AtomsEqual(v, r, w, s, headers, atoms);
    } else if AtomString(v, r, atoms) {
      AtomAndHeapEqual(v, r, w, s, headers, atoms);
      assert |r| <= 255 && r[..|r|] == r;
    } else if AtomString(w, s, atoms) {
      AtomAndHeapEqual(w, s, v, r, headers, atoms);
      assert |s| <= 255 && s[..|s|] == s;
    } else {
      HeapEqual(v, r, w, s, headers, atoms);
    }
  }

  // An atom equals a heap copy of itself exactly when its length fits in eight bits.
  lemma EqualsItsCopy(v: NbWord, a: Atom, w: NbWord, headers: Headers, atoms: seq<Atom>)
    requires AtomString(v, a, atoms) && HeapString(w, a, headers)
    ensures Equal(v, w, headers, atoms) <==> |a| <= 255
  {
    AtomAndHeapEqual(v, a, w, a, headers, atoms);
  }

  // An atom of 256 bytes, added to a fresh table, differs from a heap copy of itself.
  lemma LongAtomInput(p: nat, size: nat)
    requires Address(p) && 1 < size <= INDEX_LIMIT
    ensures var a: Atom := seq(256, _ => 65);
            var (atoms, found) := Add(Initial(size), 0, a);
            var v, w, headers := AtomValue(found.GetOr(0) % INDEX_LIMIT, 256), PtrValue(p), map[p := a];
            && AtomString(v, a, atoms) && HeapString(w, a, headers) && !Equal(v, w, headers, atoms)
  {
    hide Equal, Hash, Probe, Find, AtomValue, PtrValue, Initial;
    var a: Atom := seq(256, _ => 65);
    var (atoms, found) := Add(Initial(size), 0, a);
    InitialInv(size);
    AddSucceeds(Initial(size), 0, a);
    AddHits(Initial(size), 0, a);
    assert found.value < |atoms| == size;
    var v, w, headers := AtomValue(found.value, 256), PtrValue(p), map[p := a];
    assert p in headers && headers[p] == a;
    assert AtomString(v, a, atoms) && HeapString(w, a, headers);
    EqualsItsCopy(v, a, w, headers, atoms);
  }

  // Beyond that, equality departs from byte equality for exactly two heap strings: the atom's own bytes,
  // and their first (length modulo 256).
  lemma LongAtomEquality(v: NbWord, a: Atom, w: NbWord, s: seq<Byte>, headers: Headers, atoms: seq<Atom>)
    requires AtomString(v, a, atoms) && HeapString(w, s, headers) && |a| >= 256
    ensures (Equal(v, w, headers, atoms) <==> a == s) <==> s != a && s != a[..|a| % 256]
  {
    hide Equal, AtomString, HeapString;
    AtomAndHeapEqual(v, a, w, s, headers, atoms);
    assert |a[..|a| % 256]| < |a|;
  }

  // Atom words keep their meaning while the table grows.
  lemma AtomStringStable(w: NbWord, s: Atom, atoms: seq<Atom>, count: nat, ds: seq<Atom>)
    requires Inv(atoms, count) && AtomString(w, s, atoms)
    ensures AtomString(w, s, AddAll(atoms, count, ds).0)
  {
    AppendOnly(atoms, count, ds, s);
  }

  class Memory {
    var headers: Headers
  }

  class UString {
    var dWord: NbWord

    // UString(const char *): `p` is what malloc returns for the header, 0 when it fails.
    constructor FromCString(str: Option<seq<Byte>>, mem: Memory, p: nat)
      requires str.Some? ==> |str.value| < 0x1_0000_0000 && 0 !in str.value
      requires p == 0 || (Address(p) && p !in mem.headers)
      modifies mem
      ensures var s := str.GetOr([]);
              if s != [] && p != 0 then
                mem.headers == old(mem.headers)[p := s] && HeapString(dWord, s, mem.headers)
              else mem.headers == old(mem.headers) && dWord == VALUE_NULL
    {
      var s := str.GetOr([]);
      dWord := if |s| != 0 && p != 0 then PtrValue(p) else VALUE_NULL;
      new;
      if |s| != 0 && p != 0 {
        mem.headers := mem.headers[p := s];
        assert p in mem.headers && mem.headers[p] == s;
      }
    }

    // UString::fromAtom
    constructor FromAtom(atom: Atom, table: AtomTable)
      requires table.Valid() && |table.atoms| <= INDEX_LIMIT
      ensures if Find(table.atoms, atom).Some? then AtomString(dWord, atom, table.atoms) else dWord == VALUE_NULL
    {
      dWord := VALUE_NULL;
      new;
      if 0 < |atom| < INDEX_LIMIT {
        var ok, index := table.GetAtomIndex(atom);
        if ok {
          dWord := AtomValue(index, |atom|);
        }
      }
    }

    // operator==(const UString &)
    method Equals(rhs: UString, mem: Memory, table: AtomTable) returns (r: bool)
      requires table.Valid()
      requires SizeOf(dWord, mem.headers) <= |CStr(dWord, mem.headers, table.atoms)|
      requires SizeOf(rhs.dWord, mem.headers) <= |CStr(rhs.dWord, mem.headers, table.atoms)|
      ensures r == Equal(dWord, rhs.dWord, mem.headers, table.atoms)
    {
      hide TypeOf, LengthOf, IndexOf, PtrOf, Inv, CStr, SizeOf;
      if TypeOf(dWord) == AtomPtr && TypeOf(rhs.dWord) == AtomPtr {
        return dWord == rhs.dWord;
      }
      var sz := SizeOf(dWord, mem.headers);
      if sz != SizeOf(rhs.dWord, mem.headers) {
        return false;
      }
      var a := Chars(dWord, mem, table);
      var b := Chars(rhs.dWord, mem, table);
      for i := 0 to sz
        invariant a[..i] == b[..i]
      {
        if a[i] != b[i] {
          assert a[..sz][i] != b[..sz][i];
          return false;
        }
      }
      return true;
    }
  }

  // c_str()
  method Chars(w: NbWord, mem: Memory, table: AtomTable) returns (s: seq<Byte>)
    requires table.Valid()
    ensures s == CStr(w, mem.headers, table.atoms)
  {
    s := [];
    if TypeOf(w) == UStringPtr {
      if PtrOf(w) in mem.headers {
        s := mem.headers[PtrOf(w)];
      }
    } else if TypeOf(w) == AtomPtr {
      s := table.GetAtomByIndex(IndexOf(w));
    }
  }
}
