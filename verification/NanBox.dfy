/** The 64-bit NaN boxing of deconz/nanbox.h and nanbox.c. Words are numbers below 2^64: a right shift is a
    division, a low mask a remainder, and a bitwise or of fields that do not overlap a sum (OrIsSum). */
module NanBox {
  type NbWord = w: int | 0 <= w < 0x1_0000_0000_0000_0000

  datatype BoxType = Nan | Null | UStringPtr | AtomPtr | Timestamp | Bool | Type6 | Double

  const BOX: nat := 0xFFF8_0000_0000_0000         // sign, exponent and quiet bit
  const TYPE_UNIT: nat := 0x1_0000_0000_0000      // one step of the type field, and the limit of pointers
  const INDEX_LIMIT: nat := 0x100_0000            // the limit of atom indices, and one step of the length field
  const VALUE_NULL: NbWord := 0xFFF9_0000_0000_0000

  // NB_IsBox
  predicate IsBox(w: NbWord) {
    (w / 0x8_0000_0000_0000) % 0x2000 == 0x1fff
  }

  // NB_Type
  function TypeOf(w: NbWord): BoxType {
    if !IsBox(w) then Double
    else
      match (w / TYPE_UNIT) % 8
      case 0 => Nan
      case 1 => Null
      case 2 => UStringPtr
      case 3 => AtomPtr
      case 4 => Timestamp
      case 5 => Bool
      case 6 => Type6
      case _ => Double
  }

  // NB_VALUE_ATOM_PTR. The length is a 32-bit unsigned when it is shifted, so only its low eight bits
  // survive. UString::fromAtom asserts that the index fits below the length.
  function AtomValue(index: nat, len: nat): NbWord
    requires index < INDEX_LIMIT
  {
    BOX + 3 * TYPE_UNIT + (len * 0x100_0000) % 0x1_0000_0000 + index
  }

  // The index and the length that UString reads back from a word.
  function IndexOf(w: NbWord): nat { w % INDEX_LIMIT }

  function LengthOf(w: NbWord): nat { ((w / 0x100_0000) % 0x1_0000_0000) % 0x1_0000 }

  // The boxed form of a pointer to a string header; NB_FromUStringPtr asserts that it has 48 bits.
  function PtrValue(p: nat): NbWord
    requires p < TYPE_UNIT
  {
    BOX + 2 * TYPE_UNIT + p
  }

  function PtrOf(w: NbWord): nat { w % TYPE_UNIT }

  // The bits of NB_VALUE_ATOM_PTR.
  function AtomBits(index: bv64, len: bv32): bv64 {
    (0x1fff << 51) | (3 << 48) | ((len << 24) as bv64) | index
  }

  // The fields do not overlap, so the or of them is their sum, in which the length counts modulo 256.
  lemma OrIsSum(index: bv64, len: bv32)
    requires index < 0x100_0000
    ensures AtomBits(index, len)
         == 0xFFF8_0000_0000_0000 + 0x3_0000_0000_0000 + ((len & 0xff) as bv64) * 0x100_0000 + index
  {
  }

  // The shifts and masks of NB_IsBox, NB_Type and UString take the same fields out again.
  lemma BitsRoundTrip(index: bv64, len: bv32)
    requires index < 0x100_0000
    ensures var w := AtomBits(index, len);
            && (w >> 51) & 0x1fff == 0x1fff && (w >> 48) & 7 == 3
            && w & 0xff_ffff == index && ((w >> 24) & 0xffff_ffff) & 0xffff == (len & 0xff) as bv64
  {
  }

  lemma LengthField(len: nat)
    ensures (len * 0x100_0000) % 0x1_0000_0000 == (len % 256) * 0x100_0000
  {
  }

  // The words themselves: three hexadecimal digits of box and type, then length and index or the pointer.
  lemma WordLayout(index: nat, len: nat, p: nat, w: NbWord)
    requires index < 0x100_0000 && p < 0x1_0000_0000_0000
    ensures AtomValue(index, len) == 0xFFFB_0000_0000_0000 + (len % 256) * 0x100_0000 + index
    ensures PtrValue(p) == 0xFFFA_0000_0000_0000 + p
    ensures TypeOf(w) == AtomPtr <==> 0xFFFB_0000_0000_0000 <= w < 0xFFFC_0000_0000_0000
    ensures TypeOf(w) == UStringPtr <==> 0xFFFA_0000_0000_0000 <= w < 0xFFFB_0000_0000_0000
  {
    LengthField(len);
  }

  // The packed word is an atom pointer and decodes to its index and to the length modulo 256.
  lemma AtomRoundTrip(index: nat, len: nat)
    requires index < INDEX_LIMIT
    ensures TypeOf(AtomValue(index, len)) == AtomPtr
    ensures IndexOf(AtomValue(index, len)) == index
    ensures LengthOf(AtomValue(index, len)) == len % 256
  {
    var w := AtomValue(index, len);
    WordLayout(index, len, 0, w);
    hide AtomValue, TypeOf;
    assert w / 0x100_0000 == 0xFF_FB00_0000 + len % 256;
  }

  // Words of two atoms agree exactly when their indices and the low bytes of their lengths do.
  lemma AtomValueInjective(i: nat, m: nat, j: nat, n: nat)
    requires i < INDEX_LIMIT && j < INDEX_LIMIT
    ensures AtomValue(i, m) == AtomValue(j, n) <==> i == j && m % 256 == n % 256
  {
    hide TypeOf, IndexOf, LengthOf;
    AtomRoundTrip(i, m);
    AtomRoundTrip(j, n);
    LengthField(m);
    LengthField(n);
  }

  lemma PtrRoundTrip(p: nat)
    requires p < TYPE_UNIT
    ensures TypeOf(PtrValue(p)) == UStringPtr && PtrOf(PtrValue(p)) == p
  {
  }
}
