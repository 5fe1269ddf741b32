/** ZCL attributes, commands and frames of zcl.cpp as values: what is written and what is read back. */
module ZclSpec {
  import opened Wrappers
  import opened SStreamSpec
  import opened Endian
  import Cyclic

  type Bytes = Text

  // ----- attributes -----

  type Width = n: nat | 1 <= n <= 8 witness 1

  // ZclDataTypeId; the parameter is the length in bytes.
  datatype DataType =
    | Data(n: Width) | Bitmap(n: Width) | Uint(n: Width) | Int(n: Width) | Enum8 | Enum16
    | Boolean | SingleFloat | UtcTime | ClusterId | AttributeId | BacnetOid | IeeeAddress
    | OctetString | SecurityKey

  // `num` is the 64-bit m_numericValue.u64, `bitmap` m_valueState.bitmap, `bytes` m_value if it is a byte array.
  datatype Attr = Attr(dataType: DataType, num: nat, bitmap: nat, bytes: Option<Bytes>)

  predicate InWord(a: Attr) { a.num < 0x1_0000_0000_0000_0000 && a.bitmap < 0x1_0000_0000_0000_0000 }

  // The widths that have a member of their own in the union.
  predicate Native(n: Width) { n == 1 || n == 2 || n == 4 || n == 8 }

  function Length(t: DataType): (n: Width)
  {
    match t
    case Data(n) => n
    case Bitmap(n) => n
    case Uint(n) => n
    case Int(n) => n
    case Enum8 => 1
    case Enum16 => 2
    case Boolean => 1
    case SingleFloat => 4
    case UtcTime => 4
    case ClusterId => 2
    case AttributeId => 2
    case BacnetOid => 4
    case _ => 8
  }

  // Two's complement.
  function Signed(v: nat, n: nat): int {
    if 2 * v >= Pow256(n) then v - Pow256(n) else v
  }

  datatype Content = Number(v: int) | Raw(b: Bytes)

  // What the attribute stands for: the member of its union that its data type reads.
  function ContentOf(a: Attr): Content {
    match a.dataType
    case Data(n) => Number(if Native(n) then a.num % Pow256(n) else a.num)
    case Uint(n) => Number(if Native(n) then a.num % Pow256(n) else a.num)
    case Int(n) => Number(if Native(n) then Signed(a.num % Pow256(n), n) else Signed(a.num, 8))
    case Bitmap(_) => Number(a.bitmap)
    case Enum8 => Number(a.num % 0x1_0000_0000)
    case Enum16 => Number(a.num % 0x1_0000_0000)
    case OctetString => Raw(a.bytes.GetOr([]))
    case SecurityKey => Raw(a.bytes.GetOr([]))
    case t => Number(a.num % Pow256(Length(t)))
  }

  // The 24, 40, 48 and 56-bit signed integers are taken as a magnitude with the top bit as the sign.
  function SignMagnitude(s: int, n: Width): (b: Bytes)
    ensures |b| == n
  {
    if s >= 0 then LittleEndian(s, n)
    else
      var m := LittleEndian(-s, n);
      m[n - 1 := if m[n - 1] < 128 then m[n - 1] + 128 else m[n - 1]]
  }

  // Each of their bytes is an int when it meets the stream, which makes four bytes of it.
  function Spread(b: Bytes): (w: Bytes)
    ensures |w| == 4 * |b|
  {
    if b == [] then [] else [b[0], 0, 0, 0] + Spread(b[1..])
  }

  lemma {:induction false} SpreadAt(b: Bytes, k: nat)
    requires k < |b|
    ensures Spread(b)[4 * k..4 * k + 4] == [b[k], 0, 0, 0]
  {
    var w := Spread(b);
    if k == 0 {
      assert w[0..4] == [b[0], 0, 0, 0];
    } else {
      SpreadAt(b[1..], k - 1);
      assert w[4 * k..4 * k + 4] == Spread(b[1..])[4 * (k - 1)..4 * (k - 1) + 4];
    }
  }

  lemma {:induction false} SpreadSnoc(b: Bytes, x: Octet)
    ensures Spread(b + [x]) == Spread(b) + [x, 0, 0, 0]
  {
    if b == [] {
      assert [] + [x] == [x] && [x][1..] == [];
    } else {
      assert (b + [x])[1..] == b[1..] + [x];
      SpreadSnoc(b[1..], x);
    }
  }

  // ZclAttribute::writeToStream: the bytes written, or nothing when it returns false.
  function WriteAttr(a: Attr): (w: Option<Bytes>) {
    match a.dataType
    case Data(n) => if Native(n) then Some(LittleEndian(a.num, n)) else None
    case Bitmap(n) => Some(LittleEndian(a.bitmap, n))
    case Int(n) => Some(if Native(n) then LittleEndian(a.num, n) else Spread(SignMagnitude(Signed(a.num, 8), n)))
    case Enum8 => if a.num % 0x1_0000_0000 <= 0xFF then Some(LittleEndian(a.num, 1)) else None
    case Enum16 => if a.num % 0x1_0000_0000 <= 0xFFFF then Some(LittleEndian(a.num, 2)) else None
    case OctetString =>
      var b := a.bytes.GetOr([]);
      if |b| <= 255 then Some([|b|] + b) else None
    case SecurityKey =>
      var b := a.bytes.GetOr([]);
      if |b| == 16 then Some(b) else None
    case t => Some(LittleEndian(a.num, Length(t)))
  }

  // The bytes of the attributes that are plain numbers, and of the byte strings.
  lemma WireForm(a: Attr, w: Bytes)
    requires WriteAttr(a) == Some(w)
    ensures match a.dataType
            case Data(n) => |w| == n && OctetsOf(w, a.num)
            case Uint(n) => |w| == n && OctetsOf(w, a.num)
            case Bitmap(n) => |w| == n && OctetsOf(w, a.bitmap)
            case Int(n) => if n == 1 || n == 2 || n == 4 || n == 8 then |w| == n && OctetsOf(w, a.num) else |w| == 4 * n
            case Boolean => |w| == 1 && OctetsOf(w, a.num)
            case Enum8 => |w| == 1 && OctetsOf(w, a.num)
            case Enum16 => |w| == 2 && OctetsOf(w, a.num)
            case ClusterId => |w| == 2 && OctetsOf(w, a.num)
            case AttributeId => |w| == 2 && OctetsOf(w, a.num)
            case SingleFloat => |w| == 4 && OctetsOf(w, a.num)
            case UtcTime => |w| == 4 && OctetsOf(w, a.num)
            case BacnetOid => |w| == 4 && OctetsOf(w, a.num)
            case IeeeAddress => |w| == 8 && OctetsOf(w, a.num)
            case OctetString => w == [|w| - 1] + a.bytes.GetOr([]) && |w| <= 256
            case SecurityKey => w == a.bytes.GetOr([]) && |w| == 16
  {
    hide LittleEndian, Spread, SignMagnitude, OctetsOf;
    NumberOctets(a.num, |w|);
    NumberOctets(a.bitmap, |w|);
  }

  // Octet i of w weighs 256^i in v, of which w holds as many as it has room for.
  ghost predicate OctetsOf(w: Bytes, v: nat) {
    Weighted(w) == v % Pow256(|w|)
  }

  lemma NumberOctets(v: nat, n: nat)
    ensures OctetsOf(LittleEndian(v, n), v)
  {
    hide LittleEndian, FromLittleEndian, Pow256;
    LittleEndianValue(v, n);
    FirstOctetLowest(LittleEndian(v, n));
  }

  // ZclAttribute::readFromStream at `pos`: the attribute read and the position behind it.
  function ReadAttr(a: Attr, data: Bytes, pos: nat): (r: Option<(Attr, nat)>)
    ensures r.Some? ==> pos < r.value.1 <= |data| && r.value.0.dataType == a.dataType
  {
    if pos >= |data| then None
    else
      match a.dataType
      case OctetString =>
        var end := pos + 1 + data[pos];
        if end <= |data| then Some((a.(num := data[pos], bytes := Some(data[pos + 1..end])), end)) else None
      case SecurityKey =>
        if pos + 16 <= |data| then Some((a.(num := 0, bytes := Some(data[pos..pos + 16])), pos + 16)) else None
      case BacnetOid => None
      case t =>
        if pos + Length(t) > |data| then None
        else Some((Numeric(a, FromLittleEndian(data[pos..pos + Length(t)])), pos + Length(t)))
  }

  // A number arrives in an attribute.
  function Numeric(a: Attr, v: nat): Attr {
    match a.dataType
    case Boolean => a.(num := if v == 1 then 1 else 0, bytes := None)
    case Bitmap(_) => a.(num := v, bitmap := v, bytes := None)
    case _ => a.(num := v, bytes := None)
  }

  // Which attributes come back as they were.
  predicate Portable(a: Attr) {
    match a.dataType
    case Data(n) => Native(n)
    case Uint(n) => Native(n) || a.num < Pow256(n)
    case Int(n) => Native(n)
    case Bitmap(n) => a.bitmap < Pow256(n)
    case Enum8 => a.num % 0x1_0000_0000 <= 0xFF
    case Enum16 => a.num % 0x1_0000_0000 <= 0xFFFF
    case Boolean => a.num % 256 <= 1
    case BacnetOid => false
    case OctetString => |a.bytes.GetOr([])| <= 255
    case SecurityKey => |a.bytes.GetOr([])| == 16
    case _ => true
  }

  // q reads back at pos what a writes, and stands for the same afterwards.
  predicate ReadsBack(a: Attr, q: Attr, data: Bytes, pos: nat) {
    match WriteAttr(a)
    case None => false
    case Some(w) =>
      match ReadAttr(q, data, pos)
      case None => false
      case Some(r) => r.1 == pos + |w| && ContentOf(r.0) == ContentOf(a)
  }

  // The bytes at pos are w.
  predicate Holds(data: Bytes, pos: nat, w: Bytes) {
    pos + |w| <= |data| && data[pos..pos + |w|] == w
  }

  lemma ModuloSmall(v: nat, p: nat)
    requires p > 0
    ensures v % p == v <==> v < p
    ensures (v % p) % p == v % p
  {
    Cyclic.ModuloIs(v % p, p, 0, v % p);
    if v < p { Cyclic.ModuloIs(v, p, 0, v); }
  }

  lemma PowerRange(n: Width)
    ensures n < 8 ==> Pow256(n) <= 0x100_0000_0000_0000
    ensures Pow256(n) <= 0x1_0000_0000_0000_0000
  {
    Powers();
  }

  lemma NumberArrives(q: Attr, data: Bytes, pos: nat, v: nat)
    requires q.dataType != BacnetOid && !q.dataType.OctetString? && !q.dataType.SecurityKey?
    requires Holds(data, pos, LittleEndian(v, Length(q.dataType)))
    ensures var n := Length(q.dataType);
            ReadAttr(q, data, pos) == Some((Numeric(q, v % Pow256(n)), pos + n))
  {
    hide Numeric;
    LittleEndianValue(v, Length(q.dataType));
  }

  // The number of n octets of which only the first, x, and the fifth, y, can differ from 0.
  function Sparse(x: nat, y: nat, n: nat): nat {
    if n == 3 then x else x + 0x1_0000_0000 * y
  }

  lemma SparseValue(b: Bytes)
    requires |b| == 3 || 5 <= |b| <= 7
    requires forall i :: 0 < i < |b| && i != 4 ==> b[i] == 0
    ensures FromLittleEndian(b) == Sparse(b[0], if |b| == 3 then 0 else b[4], |b|)
  {
    var c := b[1..][1..][1..];
    assert FromLittleEndian(b[1..]) == b[1] + 256 * FromLittleEndian(b[1..][1..]);
    assert FromLittleEndian(b[1..][1..]) == b[2] + 256 * FromLittleEndian(c);
    assert FromLittleEndian(b) == b[0] + 0x100_0000 * FromLittleEndian(c);
    if |b| == 3 {
      assert c == [];
    } else {
      assert c == b[3..];
      assert FromLittleEndian(c) == c[0] + 256 * FromLittleEndian(c[1..]);
      assert c[1..] == b[4..];
      ZerosValue(b[5..]);
      assert c[1..][1..] == b[5..];
    }
  }

  lemma {:induction false} ZerosValue(b: Bytes)
    requires forall i :: 0 <= i < |b| ==> b[i] == 0
    ensures FromLittleEndian(b) == 0
  {
    if b != [] {
      ZerosValue(b[1..]);
    }
  }

  // Reading n of the 4n bytes meets the first byte of the number and, if n > 4, the second.
  lemma OddIntegerArrives(a: Attr, q: Attr, data: Bytes, pos: nat)
    requires a.dataType == q.dataType && a.dataType.Int? && !Native(a.dataType.n) && InWord(a)
    requires Holds(data, pos, WriteAttr(a).value)
    ensures var n, m := a.dataType.n, SignMagnitude(Signed(a.num, 8), a.dataType.n);
            ReadAttr(q, data, pos) == Some((q.(num := Sparse(m[0], m[1], n), bytes := None), pos + n))
  {
    hide LittleEndian, FromLittleEndian, Pow256, SignMagnitude, Spread;
    var n := a.dataType.n;
    var m := SignMagnitude(Signed(a.num, 8), n);
    var w, b := Spread(m), data[pos..pos + n];
    assert b == data[pos..pos + |w|][..n] == w[..n];
    SpreadAt(m, 0);
    SpreadAt(m, 1);
    assert forall i :: 0 <= i < 4 ==> w[i] == w[0..4][i];
    assert forall i :: 4 <= i < 8 ==> w[i] == w[4..8][i - 4];
    SparseValue(b);
  }

  // 24, 40, 48 and 56-bit signed integers are never read back: the reader stops after a quarter of the
  // bytes. What arrives is the number that was written exactly if that is below 256.
  lemma OddIntegerReadsBack(a: Attr, q: Attr, data: Bytes, pos: nat)
    requires a.dataType == q.dataType && a.dataType.Int? && !Native(a.dataType.n) && InWord(a)
    requires Holds(data, pos, WriteAttr(a).value)
    ensures !ReadsBack(a, q, data, pos)
    ensures var r := ReadAttr(q, data, pos);
            && r.Some? && r.value.1 == pos + a.dataType.n < pos + |WriteAttr(a).value|
            && (ContentOf(r.value.0) == ContentOf(a) <==> 0 <= Signed(a.num, 8) < 256)
  {
    hide LittleEndian, FromLittleEndian, Pow256, Spread, ReadAttr, Holds, SignMagnitude;
    var n, s := a.dataType.n, Signed(a.num, 8);
    Powers();
    OddIntegerArrives(a, q, data, pos);
    if s >= 0 {
      FirstBytes(s, n);
      if n != 3 { FewDigits(s); }
    }
  }

  lemma FirstBytes(s: nat, n: Width)
    requires n >= 2
    ensures SignMagnitude(s, n)[0] == s % 256 && SignMagnitude(s, n)[1] == s / 256 % 256
  {
    assert LittleEndian(s, n) == [s % 256] + LittleEndian(s / 256, n - 1);
    assert LittleEndian(s / 256, n - 1)[0] == s / 256 % 256;
  }

  lemma FewDigits(s: nat)
    ensures s == s % 256 + (s / 256 % 256) * 0x1_0000_0000 <==> s < 256
  {
    var q, r := s / 256, s % 256;
    var y := q % 256;
    assert s == 256 * q + r;
    if s == r + y * 0x1_0000_0000 {
      Cyclic.ModuloIs(q, 256, y * 0x1_0000, 0);
    }
  }

  lemma OctetsArrive(a: Attr, data: Bytes, pos: nat)
    requires a.dataType == OctetString && |a.bytes.GetOr([])| <= 255 && Holds(data, pos, WriteAttr(a).value)
    ensures var b := a.bytes.GetOr([]);
            pos + 1 + |b| <= |data| && data[pos] == |b| && data[pos + 1..pos + 1 + |b|] == b
  {
    var w := WriteAttr(a).value;
    assert data[pos] == data[pos..pos + |w|][0];
    assert data[pos + 1..pos + |w|] == data[pos..pos + |w|][1..];
  }

  lemma OctetsReadBack(a: Attr, q: Attr, data: Bytes, pos: nat)
    requires a.dataType == q.dataType && (a.dataType == OctetString || a.dataType == SecurityKey)
    requires WriteAttr(a).Some? && Holds(data, pos, WriteAttr(a).value)
    ensures ReadsBack(a, q, data, pos)
  {
    hide LittleEndian, FromLittleEndian, Pow256;
    if a.dataType == OctetString {
      OctetsArrive(a, data, pos);
    }
  }

  predicate IsNumber(t: DataType) { t != OctetString && t != SecurityKey && t != BacnetOid && !(t.Int? && !Native(t.n)) }

  lemma EnumLow(v: nat, p: nat)
    requires p == 0x100 || p == 0x1_0000
    ensures (v % p) % 0x1_0000_0000 == v % 0x1_0000_0000 <==> v % 0x1_0000_0000 < p
  {
    var q, r := v / 0x1_0000_0000, v % 0x1_0000_0000;
    var c, d := r / p, r % p;
    if p == 0x100 {
      Cyclic.ModuloIs(v, 0x100, 0x100_0000 * q + c, d);
    } else {
      Cyclic.ModuloIs(v, 0x1_0000, 0x1_0000 * q + c, d);
    }
    ModuloSmall(r, p);
  }

  // The number that arrives stands for the number that was sent exactly in the portable attributes.
  lemma NumberContent(a: Attr, q: Attr, v: nat)
    requires a.dataType == q.dataType && InWord(a) && IsNumber(a.dataType) && WriteAttr(a).Some?
    requires v == if a.dataType.Bitmap? then a.bitmap else a.num
    ensures ContentOf(Numeric(q, v % Pow256(Length(a.dataType)))) == ContentOf(a) <==> Portable(a)
  {
    hide LittleEndian, FromLittleEndian, Pow256, Signed;
    Powers();
    match a.dataType {
      case Data(n) => ModuloSmall(v, Pow256(n));
      case Uint(n) => ModuloSmall(v, Pow256(n));
      case Int(n) => ModuloSmall(v, Pow256(n));
      case Bitmap(n) => ModuloSmall(v, Pow256(n));
      case Enum8 => EnumLow(v, 0x100);
      case Enum16 => EnumLow(v, 0x1_0000);
      case Boolean => ModuloSmall(v, 0x100);
      case t => ModuloSmall(v, Pow256(Length(t)));
    }
  }

  lemma NumberReadsBack(a: Attr, q: Attr, data: Bytes, pos: nat)
    requires a.dataType == q.dataType && InWord(a) && IsNumber(a.dataType)
    requires WriteAttr(a).Some? && Holds(data, pos, WriteAttr(a).value)
    ensures ReadsBack(a, q, data, pos) <==> Portable(a)
  {
    hide LittleEndian, FromLittleEndian, Pow256, ReadAttr, Holds, ContentOf, Numeric, Portable;
    var t := a.dataType;
    var v := if t.Bitmap? then a.bitmap else a.num;
    NumberArrives(q, data, pos, v);
    NumberContent(a, q, v);
  }

  // What is written is read back exactly for the portable attributes.
  lemma AttrRoundTrip(a: Attr, q: Attr, data: Bytes, pos: nat)
    requires a.dataType == q.dataType && InWord(a)
    requires WriteAttr(a).Some? ==> Holds(data, pos, WriteAttr(a).value)
    ensures ReadsBack(a, q, data, pos) <==> Portable(a)
  {
    hide LittleEndian, FromLittleEndian, Pow256, Holds, SignMagnitude, Spread, ContentOf;
    if WriteAttr(a).Some? && a.dataType != BacnetOid {
      if IsNumber(a.dataType) {
        NumberReadsBack(a, q, data, pos);
      } else if a.dataType.Int? {
        OddIntegerReadsBack(a, q, data, pos);
      } else {
        OctetsReadBack(a, q, data, pos);
      }
    }
  }

  // ----- the parameters of a command -----

  // ZclCommand::writeToStream after n parameters: whether it is still true, and the bytes written.
  function WriteUpTo(ps: seq<Attr>, n: nat): (bool, Bytes)
    requires n <= |ps|
  {
    if n == 0 then (true, [])
    else
      var (ok, b) := WriteUpTo(ps, n - 1);
      match WriteAttr(ps[n - 1])
      case Some(w) => (ok, if ok then b + w else b)
      case None => (false, b)
  }

  // ZclCommand::readFromStream after n parameters, if they could be read.
  function ReadUpTo(qs: seq<Attr>, data: Bytes, pos: nat, n: nat): (r: Option<(seq<Attr>, nat)>)
    requires n <= |qs|
    ensures r.Some? ==> |r.value.0| == n && pos <= r.value.1 && forall i :: 0 <= i < n ==> r.value.0[i].dataType == qs[i].dataType
  {
    if n == 0 then Some(([], pos))
    else
      match ReadUpTo(qs, data, pos, n - 1)
      case None => None
      case Some(r) =>
        match ReadAttr(qs[n - 1], data, r.1)
        case None => None
        case Some(last) => Some((r.0 + [last.0], last.1))
  }

  // One more parameter.
  lemma ReadStep(qs: seq<Attr>, data: Bytes, pos: nat, n: nat)
    requires n < |qs| && ReadUpTo(qs, data, pos, n).Some?
    ensures var (rs, p) := ReadUpTo(qs, data, pos, n).value;
            match ReadAttr(qs[n], data, p)
            case None => ReadUpTo(qs, data, pos, n + 1) == None
            case Some(r) => ReadUpTo(qs, data, pos, n + 1) == Some((rs + [r.0], r.1))
  {
    hide ReadAttr;
  }

  lemma {:induction false} StaysUnread(qs: seq<Attr>, data: Bytes, pos: nat, k: nat, n: nat)
    requires k <= n <= |qs| && ReadUpTo(qs, data, pos, k).None?
    ensures ReadUpTo(qs, data, pos, n).None?
    decreases n
  {
    if k < n {
      StaysUnread(qs, data, pos, k, n - 1);
    }
  }

  predicate SameTypes(ps: seq<Attr>, qs: seq<Attr>) {
    |ps| == |qs| && forall i :: 0 <= i < |ps| ==> ps[i].dataType == qs[i].dataType
  }

  predicate SameContents(ps: seq<Attr>, qs: seq<Attr>) {
    |ps| == |qs| && forall i :: 0 <= i < |ps| ==> ContentOf(ps[i]) == ContentOf(qs[i])
  }

  predicate AllPortable(ps: seq<Attr>) {
    forall i :: 0 <= i < |ps| ==> InWord(ps[i]) && Portable(ps[i])
  }

  lemma PortableIsWritten(a: Attr)
    requires Portable(a)
    ensures WriteAttr(a).Some?
  {
  }

  lemma {:induction false} ParametersRoundTrip(ps: seq<Attr>, qs: seq<Attr>, data: Bytes, pos: nat, n: nat)
    requires SameTypes(ps, qs) && AllPortable(ps) && n <= |ps|
    requires Holds(data, pos, WriteUpTo(ps, n).1)
    ensures WriteUpTo(ps, n).0
    ensures var r := ReadUpTo(qs, data, pos, n);
            && r.Some? && r.value.1 == pos + |WriteUpTo(ps, n).1| && SameContents(r.value.0, ps[..n])
  {
    hide WriteAttr, ReadAttr, ContentOf, Portable, InWord;
    if n > 0 {
      var (ok, b) := WriteUpTo(ps, n - 1);
      PortableIsWritten(ps[n - 1]);
      var w := WriteAttr(ps[n - 1]).value;
      var all := WriteUpTo(ps, n).1;
      assert all == b + w || all == b;
      assert data[pos..pos + |b|] == data[pos..pos + |all|][..|b|];
      ParametersRoundTrip(ps, qs, data, pos, n - 1);
      var p := pos + |b|;
      assert data[p..p + |w|] == data[pos..pos + |all|][|b|..];
      AttrRoundTrip(ps[n - 1], qs[n - 1], data, p);
    }
  }

  // ----- frames -----

  datatype Frame = Frame(frameControl: Octet, manufacturerCode: nat, seqNumber: Octet, commandId: Octet, payload: Bytes)

  // Bit 2 of the frame control.
  predicate IsManufacturerSpecific(fc: Octet) { (fc / 4) % 2 == 1 }

  // Bit 3 of the frame control: the direction.
  predicate ServerToClient(fc: Octet) { (fc / 8) % 2 == 1 }

  function HeaderLength(fc: Octet): nat {
    if IsManufacturerSpecific(fc) then 5 else 3
  }

  // ZclFrame::writeToStream
  function WriteFrame(f: Frame): Bytes {
    [f.frameControl] + (if IsManufacturerSpecific(f.frameControl) then LittleEndian(f.manufacturerCode, 2) else [])
    + [f.seqNumber, f.commandId] + f.payload
  }

  // ZclFrame::readFromStream of a whole frame; a frame whose header is cut short is not valid.
  function ReadFrame(data: Bytes): (f: Option<Frame>) {
    if data == [] || |data| < HeaderLength(data[0]) then None
    else
      var h := HeaderLength(data[0]);
      Some(Frame(data[0], if h == 5 then FromLittleEndian(data[1..3]) else 0, data[h - 2], data[h - 1], data[h..]))
  }

  lemma FrameRoundTrip(f: Frame)
    requires f.manufacturerCode < 0x1_0000
    ensures ReadFrame(WriteFrame(f))
         == Some(if IsManufacturerSpecific(f.frameControl) then f else f.(manufacturerCode := 0))
  {
    hide LittleEndian, FromLittleEndian, Pow256;
    var data := WriteFrame(f);
    var h := HeaderLength(f.frameControl);
    assert data[h..] == f.payload;
    if h == 5 {
      assert data[1..3] == LittleEndian(f.manufacturerCode, 2);
      LittleEndianValue(f.manufacturerCode, 2);
      Powers();
    }
  }

  // Only one octet string reads as a given frame.
  lemma FrameDetermined(data: Bytes)
    requires ReadFrame(data).Some?
    ensures WriteFrame(ReadFrame(data).value) == data
  {
    hide LittleEndian, FromLittleEndian;
    var h := HeaderLength(data[0]);
    if h == 5 {
      LittleEndianOf(data[1..3]);
      assert data == [data[0]] + data[1..3] + [data[3], data[4]] + data[5..];
    } else {
      assert data == [data[0]] + [] + [data[1], data[2]] + data[3..];
    }
  }

  // The octets on the air: bit 2 of the frame control puts the manufacturer code, low octet first, behind it.
  lemma FrameLayout(f: Frame)
    requires f.manufacturerCode < 0x1_0000
    ensures var w, h := WriteFrame(f), if (f.frameControl as bv8) & 0x04 != 0 then 5 else 3;
            && |w| == h + |f.payload| && w[h..] == f.payload
            && w[0] == f.frameControl && w[h - 2] == f.seqNumber && w[h - 1] == f.commandId
            && (h == 5 ==> w[1] == f.manufacturerCode % 256 && w[2] == f.manufacturerCode / 256)
  {
    BitTwo(f.frameControl);
    hide LittleEndian;
    if IsManufacturerSpecific(f.frameControl) {
      TwoOctets(f.manufacturerCode);
    }
  }

  lemma TwoOctets(v: nat)
    requires v < 0x1_0000
    ensures LittleEndian(v, 2) == [v % 256, v / 256]
  {
    assert LittleEndian(v / 256, 1) == [v / 256] + LittleEndian(0, 0);
  }

  // And what is taken out of them. A frame is valid exactly when its header is complete.
  lemma FrameTaken(data: Bytes)
    ensures data == [] ==> ReadFrame(data).None?
    ensures data != [] ==>
              var h, r := if (data[0] as bv8) & 0x04 != 0 then 5 else 3, ReadFrame(data);
              && (r.Some? <==> |data| >= h)
              && (r.Some? ==> r.value == Frame(data[0], if h == 5 then data[1] as int + 256 * (data[2] as int) else 0,
                                               data[h - 2], data[h - 1], data[h..]))
  {
    if data != [] { BitTwo(data[0]); }
    if |data| >= 5 {
      var b := data[1..3];
      assert b[1..] == [data[2]] && [data[2]][1..] == [];
      assert FromLittleEndian([data[2]]) == data[2] + 256 * FromLittleEndian([]);
    }
  }

  lemma BitTwo(fc: Octet)
    ensures IsManufacturerSpecific(fc) <==> (fc as bv8) & 0x04 != 0
  {
  }

  lemma BitThree(fc: Octet)
    ensures ServerToClient(fc) <==> (fc as bv8) & 0x08 != 0
  {
  }

  // ----- the commands of a cluster -----

  datatype Command = Command(id: Octet, recv: bool, params: seq<Attr>)

  // The frame carries this command in the direction in which the cluster side takes it: a received command
  // travels towards the cluster's own side, a sent one away from it.
  predicate Carries(f: Frame, c: Command, isServer: bool) {
    c.id == f.commandId && (c.recv <==> ServerToClient(f.frameControl) != isServer)
  }

  // Bit 3 of the frame control set: from server to client, so a client receives it and a server has sent it.
  lemma DirectionOnTheAir(f: Frame, c: Command)
    ensures var toClient := (f.frameControl as bv8) & 0x08 != 0;
            && (Carries(f, c, true) <==> f.commandId == c.id && c.recv == !toClient)
            && (Carries(f, c, false) <==> f.commandId == c.id && c.recv == toClient)
  {
    BitThree(f.frameControl);
  }

  // The first command the frame carries, or |cs|.
  function FirstCarried(f: Frame, cs: seq<Command>, isServer: bool, from: nat): (k: nat)
    requires from <= |cs|
    ensures from <= k <= |cs| && (k < |cs| ==> Carries(f, cs[k], isServer))
    ensures forall j :: from <= j < k ==> !Carries(f, cs[j], isServer)
    decreases |cs| - from
  {
    if from == |cs| || Carries(f, cs[from], isServer) then from else FirstCarried(f, cs, isServer, from + 1)
  }

  // ZclCluster::readCommand, when it succeeds: the commands of the cluster afterwards.
  function ReadCommand(isZcl: bool, isServer: bool, cs: seq<Command>, f: Frame): Option<seq<Command>> {
    var k := FirstCarried(f, cs, isServer, 0);
    if !isZcl || k == |cs| then None
    else
      match ReadUpTo(cs[k].params, f.payload, 0, |cs[k].params|)
      case None => None
      case Some(r) => Some(cs[k := cs[k].(params := r.0)])
  }

  // From the parameters of a command through its payload, the frame on the air and back: every parameter of
  // the receiver's first matching command stands for what the sender's did, and no other command changes.
  lemma {:induction false} CommandRoundTrip(ps: seq<Attr>, f: Frame, isServer: bool, cs: seq<Command>, k: nat)
    requires AllPortable(ps) && f.manufacturerCode < 0x1_0000
    requires f.payload == WriteUpTo(ps, |ps|).1
    requires k < |cs| && SameTypes(ps, cs[k].params) && Carries(f, cs[k], isServer)
    requires forall j :: 0 <= j < k ==> !Carries(f, cs[j], isServer)
    ensures ReadFrame(WriteFrame(f)).Some?
    ensures var r := ReadCommand(true, isServer, cs, ReadFrame(WriteFrame(f)).value);
            && r.Some? && |r.value| == |cs| && SameContents(r.value[k].params, ps)
            && forall j :: 0 <= j < |cs| && j != k ==> r.value[j] == cs[j]
  {
    hide WriteFrame, ReadFrame, ReadUpTo, WriteUpTo, ContentOf, Portable, InWord;
    FrameRoundTrip(f);
    var g := ReadFrame(WriteFrame(f)).value;
    assert forall j :: 0 <= j <= k ==> Carries(g, cs[j], isServer) == Carries(f, cs[j], isServer);
    assert FirstCarried(g, cs, isServer, 0) == k;
    assert f.payload[0..|f.payload|] == f.payload;
    ParametersRoundTrip(ps, cs[k].params, f.payload, 0, |ps|);
    assert ps[..|ps|] == ps;
  }

  // Minus one as a 24-bit integer on the air: the magnitude 1 with the top bit set, each byte as an int.
  lemma MinusOneOnTheAir()
    ensures WriteAttr(Attr(Int(3), 0xFFFF_FFFF_FFFF_FFFF, 0, None)) == Some([1, 0, 0, 0, 0, 0, 0, 0, 128, 0, 0, 0])
  {
    Powers();
    assert LittleEndian(1, 3) == [1, 0, 0] by {
      assert LittleEndian(0, 2) == [0] + LittleEndian(0, 1) && LittleEndian(0, 1) == [0] + LittleEndian(0, 0);
    }
    var b: Bytes := [1, 0, 128];
    assert SignMagnitude(-1, 3) == b;
    assert b[1..] == [0, 128] && [0, 128][1..] == [128] && [128][1..] == [];
    assert Spread([128]) == [128, 0, 0, 0] + Spread([]);
    assert Spread([0, 128]) == [0, 0, 0, 0] + Spread([128]);
    assert Spread(b) == [1, 0, 0, 0] + Spread([0, 128]);
    assert Signed(0xFFFF_FFFF_FFFF_FFFF, 8) == -1;
    var w: Bytes := [1, 0, 0, 0, 0, 0, 0, 0, 128, 0, 0, 0];
    assert Spread(b) == w;
    assert WriteAttr(Attr(Int(3), 0xFFFF_FFFF_FFFF_FFFF, 0, None)) == Some(Spread(b));
  }

  // A 24-bit integer of -1 does not come back, whichever way it was set: setNumericValue leaves it in all 64
  // bits of the word and 1 arrives, setValue leaves it in the lower 32 and 255 arrives.
  lemma NegativeInt24(q: Attr, num: nat)
    requires q.dataType == Int(3) && (num == 0xFFFF_FFFF_FFFF_FFFF || num == 0xFFFF_FFFF)
    ensures var a := Attr(Int(3), num, 0, None);
            && WriteAttr(a).Some? && !ReadsBack(a, q, WriteAttr(a).value, 0)
            && var r := ReadAttr(q, WriteAttr(a).value, 0);
               r.Some? && ContentOf(r.value.0) == Number(if num == 0xFFFF_FFFF then 255 else 1)
  {
    hide ReadsBack, ReadAttr, LittleEndian, Spread;
    var a := Attr(Int(3), num, 0, None);
    Powers();
    var w := WriteAttr(a).value;
    assert w[0..|w|] == w;
    OddIntegerReadsBack(a, q, w, 0);
    OddIntegerArrives(a, q, w, 0);
    if num == 0xFFFF_FFFF { FirstBytes(num, 3); } else { FirstBytes(1, 3); }
  }
}
