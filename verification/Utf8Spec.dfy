/** UTF-8 as RFC 3629 defines it, and how util.cpp and zcl.cpp read it. */
module Utf8Spec {
  import opened Wrappers
  import opened SStreamSpec

  // ----- RFC 3629 -----

  predicate IsScalar(cp: int) { 0 <= cp <= 0x10FFFF && !(0xD800 <= cp <= 0xDFFF) }

  // Section 3: the octets of a character number.
  function Encode(cp: int): (b: Text)
    requires IsScalar(cp)
    ensures 1 <= |b| <= 4
  {
    if cp < 0x80 then [cp]
    else if cp < 0x800 then [0xC0 + cp / 64, 0x80 + cp % 64]
    else if cp < 0x1_0000 then [0xE0 + cp / 4096, 0x80 + cp / 64 % 64, 0x80 + cp % 64]
    else [0xF0 + cp / 262144, 0x80 + cp / 4096 % 64, 0x80 + cp / 64 % 64, 0x80 + cp % 64]
  }

  // The examples of section 7: the octets of "A", not identical to, Alpha, a Hangul syllable, a Japanese
  // character and one beyond 16 bits. And both ends of every range of section 3.
  lemma EncodeExamples()
    ensures Encode(0x41) == [0x41] && Encode(0x2262) == [0xE2, 0x89, 0xA2] && Encode(0x391) == [0xCE, 0x91]
    ensures Encode(0xD55C) == [0xED, 0x95, 0x9C] && Encode(0x65E5) == [0xE6, 0x97, 0xA5]
    ensures Encode(0x233B4) == [0xF0, 0xA3, 0x8E, 0xB4]
    ensures Encode(0x7F) == [0x7F] && Encode(0x80) == [0xC2, 0x80] && Encode(0x7FF) == [0xDF, 0xBF]
    ensures Encode(0x800) == [0xE0, 0xA0, 0x80] && Encode(0xFFFF) == [0xEF, 0xBF, 0xBF]
    ensures Encode(0x1_0000) == [0xF0, 0x90, 0x80, 0x80] && Encode(0x10_FFFF) == [0xF4, 0x8F, 0xBF, 0xBF]
  {
  }

  predicate IsTail(b: Octet) { 0x80 <= b <= 0xBF }

  // Section 4: the syntax of one UTF-8 sequence.
  predicate IsSequence(b: Text) {
    match |b|
    case 1 => b[0] <= 0x7F
    case 2 => 0xC2 <= b[0] <= 0xDF && IsTail(b[1])
    case 3 =>
      && IsTail(b[1]) && IsTail(b[2])
      && ((b[0] == 0xE0 && 0xA0 <= b[1]) || 0xE1 <= b[0] <= 0xEC || (b[0] == 0xED && b[1] <= 0x9F) || 0xEE <= b[0] <= 0xEF)
    case 4 =>
      && IsTail(b[1]) && IsTail(b[2]) && IsTail(b[3])
      && ((b[0] == 0xF0 && 0x90 <= b[1]) || 0xF1 <= b[0] <= 0xF3 || (b[0] == 0xF4 && b[1] <= 0x8F))
    case _ => false
  }

  // ----- U_utf8_codepoint -----

  // How many octets the first one announces.
  function Announced(lead: Octet): (n: Option<nat>)
    ensures n.Some? ==> 1 <= n.value <= 4 && (n.value == 1 <==> lead < 0x80)
  {
    if lead < 0x80 then Some(1)
    else if 0xC0 <= lead <= 0xDF then Some(2)
    else if 0xE0 <= lead <= 0xEF then Some(3)
    else if 0xF0 <= lead <= 0xF7 then Some(4)
    else None
  }

  // The payload bits: those of the first octet behind its prefix, then six of each other octet.
  function Bits(b: Text, n: nat): nat
    requires 1 <= n <= |b| <= 4
  {
    if n == 1 then b[0] % (match |b| case 1 => 128 case 2 => 32 case 3 => 16 case _ => 8)
    else 64 * Bits(b, n - 1) + b[n - 1] % 64
  }

  // The code point at i of a text that ends with NUL, and the position behind it. Any octets but NUL do
  // for the continuation.
  function CodepointAt(text: Text, i: nat): (r: Option<(nat, nat)>)
    requires i < |text| && text[|text| - 1] == 0
    ensures r.Some? ==> i < r.value.1 <= |text| && (i < |text| - 1 ==> r.value.1 < |text|)
  {
    match Announced(text[i])
    case None => None
    case Some(n) =>
      if i + n <= |text| && (forall k :: i + 1 <= k < i + n ==> text[k] != 0)
      then Some((Bits(text[i..i + n], n), i + n)) else None
  }

  // Every code point is read back from its octets, which are passed exactly.
  lemma CodepointInvertsEncode(text: Text, i: nat, cp: int)
    requires IsScalar(cp) && i < |text| && text[|text| - 1] == 0
    requires i + |Encode(cp)| <= |text| && text[i..i + |Encode(cp)|] == Encode(cp)
    ensures CodepointAt(text, i) == Some((cp, i + |Encode(cp)|))
  {
    hide Bits, Announced;
    var b := Encode(cp);
    assert forall k :: 0 <= k < |b| ==> text[i + k] == b[k];
    assert text[i..i + |b|] == b;
    BitsOfEncode(cp);
  }

  lemma BitsOfEncode(cp: int)
    requires IsScalar(cp)
    ensures Bits(Encode(cp), |Encode(cp)|) == cp && Announced(Encode(cp)[0]) == Some(|Encode(cp)|)
  {
    hide Bits;
    if cp < 0x80 {
      OneOctet(Encode(cp));
    } else if cp < 0x800 {
      TailBits(cp % 64);
      TwoOctets(Encode(cp), cp / 64, cp % 64);
    } else if cp < 0x1_0000 {
      TailBits(cp / 64 % 64);
      TailBits(cp % 64);
      Base64(cp);
      ThreeOctets(Encode(cp), cp / 4096, cp / 64 % 64, cp % 64);
    } else {
      TailBits(cp / 4096 % 64);
      TailBits(cp / 64 % 64);
      TailBits(cp % 64);
      Base64(cp);
      FourOctets(Encode(cp), cp / 262144, cp / 4096 % 64, cp / 64 % 64, cp % 64);
    }
  }

  lemma TailBits(y: nat)
    requires y < 64
    ensures (0x80 + y) % 64 == y
  {
  }

  lemma Base64(cp: nat)
    ensures cp == 4096 * (cp / 4096) + 64 * (cp / 64 % 64) + cp % 64
    ensures cp == 262144 * (cp / 262144) + 4096 * (cp / 4096 % 64) + 64 * (cp / 64 % 64) + cp % 64
  {
    var a := cp / 64;
    var c := a / 64;
    assert cp / 4096 == c;
    assert cp / 262144 == c / 64;
  }

  // The digits of a number in base 64.
  lemma Digits(cp: nat, x: nat, y: nat, z: nat, w: nat)
    requires cp == 262144 * x + 4096 * y + 64 * z + w && y < 64 && z < 64 && w < 64
    ensures cp % 64 == w && cp / 64 % 64 == z && cp / 4096 % 64 == y && cp / 262144 == x
    ensures cp / 64 == 4096 * x + 64 * y + z && cp / 4096 == 64 * x + y
  {
    assert cp / 64 == 4096 * x + 64 * y + z;
    assert cp / 4096 == 64 * x + y;
  }

  lemma TwoOctets(b: Text, x: nat, y: nat)
    requires |b| == 2 && b[0] == 0xC0 + x && x < 32 && b[1] % 64 == y
    ensures Bits(b, 2) == 64 * x + y
  {
    assert Bits(b, 1) == x;
  }

  lemma ThreeOctets(b: Text, x: nat, y: nat, z: nat)
    requires |b| == 3 && b[0] == 0xE0 + x && x < 16 && b[1] % 64 == y && b[2] % 64 == z
    ensures Bits(b, 3) == 4096 * x + 64 * y + z
  {
    assert Bits(b, 1) == x;
    assert Bits(b, 2) == 64 * x + y;
  }

  lemma FourOctets(b: Text, x: nat, y: nat, z: nat, w: nat)
    requires |b| == 4 && b[0] == 0xF0 + x && x < 8 && b[1] % 64 == y && b[2] % 64 == z && b[3] % 64 == w
    ensures Bits(b, 4) == 262144 * x + 4096 * y + 64 * z + w
  {
    assert Bits(b, 1) == x;
    assert Bits(b, 2) == 64 * x + y;
    assert Bits(b, 3) == 4096 * x + 64 * y + z;
  }

  // What is read is the character the octets stand for exactly when they are a sequence of section 4:
  // overlong forms, surrogates and wrong continuations are read as well.
  lemma ReadCharacterIsEncoded(b: Text)
    requires b != [] && Announced(b[0]) == Some(|b|)
    ensures IsSequence(b) <==> IsScalar(Bits(b, |b|)) && Encode(Bits(b, |b|)) == b
  {
    hide Bits, IsSequence;
    var lead: int := b[0];
    match |b| {
      case 1 => OneExact(b);
      case 2 => TwoOctets(b, lead - 0xC0, b[1] % 64); TwoExact(b, Bits(b, 2));
      case 3 => ThreeOctets(b, lead - 0xE0, b[1] % 64, b[2] % 64); ThreeExact(b, Bits(b, 3));
      case _ => FourOctets(b, lead - 0xF0, b[1] % 64, b[2] % 64, b[3] % 64); FourExact(b, Bits(b, 4));
    }
  }

  // An overlong form of NUL is read as the character 0.
  lemma OverlongInput()
    ensures var text: Text := [0xC0, 0x80, 0]; CodepointAt(text, 0) == Some((0, 2)) && !IsSequence(text[..2])
  {
    var text: Text := [0xC0, 0x80, 0];
    assert text[0..2] == [0xC0, 0x80] == text[..2];
    TwoOctets(text[0..2], 0, 0);
  }

  lemma OneExact(b: Text)
    requires |b| == 1 && b[0] < 0x80
    ensures IsSequence(b) && Bits(b, 1) == b[0] && Encode(b[0]) == b
  {
  }

  lemma TwoExact(b: Text, cp: nat)
    requires |b| == 2 && 0xC0 <= b[0] <= 0xDF && cp == 64 * (b[0] as int - 0xC0) + b[1] % 64
    ensures IsSequence(b) <==> IsScalar(cp) && Encode(cp) == b
  {
    Digits(cp, 0, 0, b[0] as int - 0xC0, b[1] % 64);
  }

  lemma ThreeExact(b: Text, cp: nat)
    requires |b| == 3 && 0xE0 <= b[0] <= 0xEF && cp == 4096 * (b[0] as int - 0xE0) + 64 * (b[1] as int % 64) + b[2] % 64
    ensures IsSequence(b) <==> IsScalar(cp) && Encode(cp) == b
  {
    Digits(cp, 0, b[0] as int - 0xE0, b[1] % 64, b[2] % 64);
  }

  lemma FourExact(b: Text, cp: nat)
    requires |b| == 4 && 0xF0 <= b[0] <= 0xF7
    requires cp == 262144 * (b[0] as int - 0xF0) + 4096 * (b[1] as int % 64) + 64 * (b[2] as int % 64) + b[3] % 64
    ensures IsSequence(b) <==> IsScalar(cp) && Encode(cp) == b
  {
    Digits(cp, b[0] as int - 0xF0, b[1] % 64, b[2] % 64, b[3] % 64);
  }

  lemma OneOctet(b: Text)
    requires |b| == 1 && b[0] < 128
    ensures Bits(b, 1) == b[0]
  {
  }

  // ----- strings -----

  function EncodeAll(cps: seq<int>): Text
    requires forall i :: 0 <= i < |cps| ==> IsScalar(cps[i])
  {
    if cps == [] then [] else Encode(cps[0]) + EncodeAll(cps[1..])
  }

  // The code points from i up to the terminating NUL, if U_utf8_codepoint accepts them all.
  function DecodeFrom(text: Text, i: nat): Option<seq<nat>>
    requires i < |text| && text[|text| - 1] == 0
    decreases |text| - i
  {
    if i == |text| - 1 then Some([])
    else
      match CodepointAt(text, i)
      case None => None
      case Some(r) => Prepend([r.0], DecodeFrom(text, r.1))
  }

  function Prepend(a: seq<nat>, o: Option<seq<nat>>): Option<seq<nat>> {
    match o
    case None => None
    case Some(b) => Some(a + b)
  }

  function Decode(s: Text): Option<seq<nat>> {
    DecodeFrom(s + [0], 0)
  }

  lemma {:induction false} DecodeTail(before: Text, cps: seq<int>)
    requires forall i :: 0 <= i < |cps| ==> IsScalar(cps[i])
    ensures var d := DecodeFrom(before + EncodeAll(cps) + [0], |before|);
            d.Some? && d.value == cps
    decreases |cps|
  {
    hide CodepointAt, Encode;
    var text := before + EncodeAll(cps) + [0];
    if cps != [] {
      var b := Encode(cps[0]);
      assert text == (before + b) + EncodeAll(cps[1..]) + [0];
      assert text[|before|..|before| + |b|] == b;
      CodepointInvertsEncode(text, |before|, cps[0]);
      DecodeTail(before + b, cps[1..]);
      assert [cps[0]] + cps[1..] == cps;
    }
  }

  // Any text is read back from its UTF-8 form.
  lemma {:induction false} DecodeInvertsEncodeAll(cps: seq<int>)
    requires forall i :: 0 <= i < |cps| ==> IsScalar(cps[i])
    ensures var d := Decode(EncodeAll(cps)); d.Some? && d.value == cps
  {
    hide DecodeFrom, EncodeAll;
    assert [] + EncodeAll(cps) + [0] == EncodeAll(cps) + [0];
    DecodeTail([], cps);
  }

  lemma {:induction false} EncodeAppend(a: seq<int>, b: seq<int>)
    requires forall i :: 0 <= i < |a + b| ==> IsScalar((a + b)[i])
    requires forall i :: 0 <= i < |a| ==> IsScalar(a[i])
    requires forall i :: 0 <= i < |b| ==> IsScalar(b[i])
    ensures EncodeAll(a + b) == EncodeAll(a) + EncodeAll(b)
    decreases |a|
  {
    hide Encode;
    if a == [] {
      assert a + b == b;
    } else {
      var all := a + b;
      assert all[0] == a[0] && all[1..] == a[1..] + b;
      EncodeAppend(a[1..], b);
      assert EncodeAll(all) == Encode(a[0]) + EncodeAll(a[1..] + b);
      assert EncodeAll(a) == Encode(a[0]) + EncodeAll(a[1..]);
    }
  }

  // ----- Latin-1 -----

  // isLikelyLatin1String: tabulator, line feed, carriage return and no other control characters.
  predicate Printable(ch: Octet) {
    ch == 9 || ch == 10 || ch == 13 || 0x20 <= ch <= 0x7E || 0xA0 <= ch
  }

  predicate LikelyLatin1(s: Text) { forall i :: 0 <= i < |s| ==> Printable(s[i]) }

  // The code point of a Latin-1 character, but a space for 0xA0 and a minus for 0xAD.
  function Opinion(ch: Octet): Octet {
    if ch == 0xA0 then 32 else if ch == 0xAD then 45 else ch
  }

  function Opinions(s: Text): (cps: seq<int>)
    ensures |cps| == |s| && forall i :: 0 <= i < |s| ==> cps[i] == Opinion(s[i])
  {
    seq(|s|, i requires 0 <= i < |s| => Opinion(s[i]))
  }

  function Utf8Of(s: Text): Text { EncodeAll(Opinions(s)) }

  // "A", a non-breaking space, a soft hyphen and an e with acute accent
  lemma Latin1Example()
    ensures Utf8Of([0x41, 0xA0, 0xAD, 0xE9]) == [0x41, 0x20, 0x2D, 0xC3, 0xA9]
  {
    assert Opinions([0x41, 0xA0, 0xAD, 0xE9]) == [0x41, 0x20, 0x2D, 0xE9];
    assert [0x41, 0x20, 0x2D, 0xE9][1..] == [0x20, 0x2D, 0xE9] && [0x20, 0x2D, 0xE9][1..] == [0x2D, 0xE9];
    assert [0x2D, 0xE9][1..] == [0xE9] && [0xE9][1..] == [];
    assert EncodeAll([0xE9]) == Encode(0xE9) + EncodeAll([]);
  }

  // The converter knows no code for 0x80.
  predicate Convertible(s: Text, outLen: nat) {
    0x80 !in s && |Utf8Of(s)| < outLen
  }

  lemma {:induction false} Utf8OfAppend(s: Text, ch: Octet)
    ensures Utf8Of(s + [ch]) == Utf8Of(s) + Encode(Opinion(ch))
  {
    hide Encode;
    assert Opinions(s + [ch]) == Opinions(s) + [Opinion(ch)];
    EncodeAppend(Opinions(s), [Opinion(ch)]);
    assert [Opinion(ch) as int][1..] == [];
    assert EncodeAll([Opinion(ch)]) == Encode(Opinion(ch));
  }

  lemma {:induction false} Utf8OfPrefix(s: Text, n: nat)
    requires n <= |s|
    ensures |Utf8Of(s[..n])| <= |Utf8Of(s)|
  {
    hide Encode;
    assert Opinions(s) == Opinions(s[..n]) + Opinions(s[n..]);
    EncodeAppend(Opinions(s[..n]), Opinions(s[n..]));
  }

  lemma {:induction false} Utf8OfSize(s: Text)
    ensures |Utf8Of(s)| <= 2 * |s|
    decreases |s|
  {
    if s != [] {
      var n := |s| - 1;
      assert s == s[..n] + [s[n]];
      Utf8OfSize(s[..n]);
      Utf8OfAppend(s[..n], s[n]);
    }
  }

  // A buffer of twice the length is enough for everything that looks like Latin-1, and the result decodes
  // to the input but for the two replaced characters.
  lemma {:induction false} LikelyLatin1Converts(s: Text, outLen: nat)
    requires LikelyLatin1(s) && outLen >= 2 * |s| + 1
    ensures Convertible(s, outLen)
    ensures var d := Decode(Utf8Of(s)); d.Some? && d.value == Opinions(s)
  {
    Utf8OfSize(s);
    DecodeInvertsEncodeAll(Opinions(s));
  }

  // ----- ZCL character strings -----

  // What ZclAttribute::readFromStream makes of a character string.
  datatype Reading = Empty | Utf8(text: Text) | Latin1(text: Text) | RawBytes(text: Text)

  function Strip(s: Text): (t: Text)
    ensures t == [] || t[|t| - 1] != 0
  {
    if s != [] && s[|s| - 1] == 0 then Strip(s[..|s| - 1]) else s
  }

  // A code point 0 in front of the last one makes the string binary.
  function Interpret(s: Text): Reading {
    if s == [] then Empty
    else
      match Decode(s)
      case Some(cps) => if cps != [] && 0 in cps[..|cps| - 1] then RawBytes(s) else Utf8(s)
      case None => if LikelyLatin1(s) then Latin1(Utf8Of(s)) else RawBytes(s)
  }

  lemma {:induction false} NoNulInside(cps: seq<int>)
    requires forall i :: 0 <= i < |cps| ==> IsScalar(cps[i]) && cps[i] != 0
    ensures 0 !in EncodeAll(cps) && (cps != [] ==> EncodeAll(cps) != [])
  {
    if cps != [] {
      NoNulInside(cps[1..]);
      assert 0 !in Encode(cps[0]);
    }
  }

  // Text without NUL, sent as UTF-8 with any padding of NULs behind it, is taken as that text.
  lemma {:induction false} Utf8IsKept(cps: seq<int>, padding: nat)
    requires cps != [] && forall i :: 0 <= i < |cps| ==> IsScalar(cps[i]) && cps[i] != 0
    ensures Interpret(Strip(EncodeAll(cps) + seq(padding, _ => 0))) == Utf8(EncodeAll(cps))
    ensures Decode(EncodeAll(cps)).Some? && Decode(EncodeAll(cps)).value == cps
  {
    var s := EncodeAll(cps);
    NoNulInside(cps);
    StripPadding(s, padding);
    DecodeInvertsEncodeAll(cps);
  }

  lemma {:induction false} StripPadding(s: Text, padding: nat)
    requires s != [] && s[|s| - 1] != 0
    ensures Strip(s + seq(padding, _ => 0)) == s
    decreases padding
  {
    var t: Text := s + seq(padding, _ => 0);
    if padding == 0 {
      assert t == s;
    } else {
      assert t[..|t| - 1] == s + seq(padding - 1, _ => 0);
      StripPadding(s, padding - 1);
    }
  }

  // Printable Latin-1 that is not UTF-8 is taken as the characters it stands for.
  lemma {:induction false} Latin1IsConverted(s: Text)
    requires s != [] && LikelyLatin1(s) && Decode(s).None?
    ensures Strip(s) == s && Interpret(s).Latin1?
    ensures var d := Decode(Interpret(s).text); d.Some? && d.value == Opinions(s)
  {
    assert Printable(s[|s| - 1]);
    LikelyLatin1Converts(s, 2 * |s| + 1);
  }
}
