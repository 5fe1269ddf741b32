/** U_utf8_codepoint of util.cpp and the reading of character strings in zcl.cpp. */
module Utf8 {
  import opened Wrappers
  import opened SStreamSpec
  import U = Utf8Spec

  // U_utf8_codepoint on the string at p. None stands for U_INVALID_UNICODE_CODEPOINT.
  method Codepoint(text: Text, p: nat) returns (codepoint: Option<nat>, next: nat)
    requires p < |text| && text[|text| - 1] == 0
    ensures match U.CodepointAt(text, p)
            case Some(r) => codepoint == Some(r.0) && next == r.1
            case None => codepoint == None && next == p + 1
  {
    hide U.Bits;
    ghost var r := U.CodepointAt(text, p);
    var cp: nat := text[p];
    next := p + 1;
    if cp / 128 == 0 {
      BitsOf(text, p, 1);
      assert r == Some((cp, next));
    } else if cp / 32 == 6 && text[next] != 0 {
      BitsOf(text, p, 2);
      cp := cp % 32;
      cp := 64 * cp + text[next] % 64;
      next := next + 1;
      assert r == Some((cp, next));
    } else if cp / 16 == 14 && text[next] != 0 && text[next + 1] != 0 {
      BitsOf(text, p, 3);
      cp := cp % 16;
      cp := 64 * cp + text[next] % 64;
      next := next + 1;
      cp := 64 * cp + text[next] % 64;
      next := next + 1;
      assert r == Some((cp, next));
    } else if cp / 8 == 30 && text[next] != 0 && text[next + 1] != 0 && text[next + 2] != 0 {
      BitsOf(text, p, 4);
      cp := cp % 8;
      cp := 64 * cp + text[next] % 64;
      next := next + 1;
      cp := 64 * cp + text[next] % 64;
      next := next + 1;
      cp := 64 * cp + text[next] % 64;
      next := next + 1;
      assert r == Some((cp, next));
    } else {
      assert r == None;
      return None, next;
    }
    codepoint := Some(cp);
  }

  lemma BitsOf(text: Text, p: nat, n: nat)
    requires 1 <= n <= 4 && p + n <= |text|
    ensures var b := text[p..p + n];
            && U.Bits(b, 1) == text[p] % (match n case 1 => 128 case 2 => 32 case 3 => 16 case _ => 8)
            && (n >= 2 ==> U.Bits(b, 2) == 64 * U.Bits(b, 1) + text[p + 1] % 64)
            && (n >= 3 ==> U.Bits(b, 3) == 64 * U.Bits(b, 2) + text[p + 2] % 64)
            && (n >= 4 ==> U.Bits(b, 4) == 64 * U.Bits(b, 3) + text[p + 3] % 64)
  {
  }

  // isLikelyLatin1String
  method IsLikelyLatin1String(str: Text) returns (likely: bool)
    ensures likely == U.LikelyLatin1(str)
  {
    var i, okChars := 0, 0;
    while i < |str|
      invariant okChars == i <= |str| && U.LikelyLatin1(str[..i])
    {
      var ch := str[i];
      if ch == 9 {
        okChars := okChars + 1;
      } else if ch == 10 {
        okChars := okChars + 1;
      } else if ch == 13 {
        okChars := okChars + 1;
      } else if ch == 0x7F {
        break;
      } else if ch < 0x20 {
        break;
      } else if ch >= 0x80 && ch <= 0x9F {
        break;
      } else {
        okChars := okChars + 1;
      }
      i := i + 1;
    }
    likely := okChars == |str|;
    assert i == |str| ==> str[..i] == str;
  }

  // latin1ToUtf8Opinionated
  method Latin1ToUtf8Opinionated(lat: Text, out: array<Octet>) returns (ok: bool)
    requires out.Length > 0
    modifies out
    ensures ok == U.Convertible(lat, out.Length)
    ensures ok ==> out[..|U.Utf8Of(lat)|] == U.Utf8Of(lat) && out[|U.Utf8Of(lat)|] == 0
  {
    hide U.Utf8Of;
    var i, w := 0, 0;
    out[0] := 0;
    assert U.Utf8Of([]) == [] by { EmptyUtf8(); }
    assert lat[..0] == [];
    while i < |lat|
      invariant i <= |lat| && w == |U.Utf8Of(lat[..i])| < out.Length
      invariant out[..w] == U.Utf8Of(lat[..i]) && out[w] == 0 && 0x80 !in lat[..i]
    {
      var ch := lat[i];
      if ch == 0xA0 {
        ch := 32;
      } else if ch == 0xAD {
        ch := 45;
      }
      assert lat[..i + 1] == lat[..i] + [lat[i]];
      U.Utf8OfAppend(lat[..i], lat[i]);
      if ch < 128 && out.Length - w > 1 {
        out[w] := ch;
        w := w + 1;
        out[w] := 0;
      } else if ch > 128 && out.Length - w > 2 {
        out[w] := 0xC0 + ch / 64;
        w := w + 1;
        out[w] := 0x80 + ch % 64;
        w := w + 1;
        out[w] := 0;
      } else {
        U.Utf8OfPrefix(lat, i + 1);
        assert lat[i] == 0x80 || |U.Utf8Of(lat)| >= out.Length;
        return false;
      }
      i := i + 1;
    }
    assert lat[..i] == lat;
    ok := true;
  }

  lemma EmptyUtf8()
    ensures U.Utf8Of([]) == []
  {
    assert U.Opinions([]) == [];
  }

  // The character string of ZclAttribute::readFromStream, from the raw bytes to the value it sets.
  method ReadCharacterString(raw: Text) returns (r: U.Reading)
    requires |raw| <= 120
    ensures r == U.Interpret(U.Strip(raw))
  {
    hide U.Utf8Of, U.LikelyLatin1, U.CodepointAt;
    var len: nat := |raw|;
    assert raw[..len] == raw;
    while len > 0 && raw[len - 1] == 0
      invariant len <= |raw| && U.Strip(raw[..len]) == U.Strip(raw)
    {
      assert raw[..len][..len - 1] == raw[..len - 1];
      len := len - 1;
    }
    var s := raw[..len];
    assert U.Strip(s) == s;
    if len == 0 {
      return U.Empty;
    }
    var valid, binary := Scan(s);
    if !valid {
      var likely := IsLikelyLatin1String(s);
      if likely {
        var utf8buf := new Octet[256];
        U.LikelyLatin1Converts(s, 256);
        var converted := Latin1ToUtf8Opinionated(s, utf8buf);
        NoNulInLatin1(s);
        var n := CStringLength(utf8buf, U.Utf8Of(s));
        return U.Latin1(utf8buf[..n]);
      }
      return U.RawBytes(s);
    }
    r := if binary then U.RawBytes(s) else U.Utf8(s);
  }

  lemma NoNulInLatin1(s: Text)
    requires U.LikelyLatin1(s)
    ensures 0 !in U.Utf8Of(s)
  {
    forall i | 0 <= i < |s| ensures U.Opinion(s[i]) != 0 { assert U.Printable(s[i]); }
    U.NoNulInside(U.Opinions(s));
  }

  // The length of the C string in a buffer.
  method CStringLength(buf: array<Octet>, ghost u: Text) returns (n: nat)
    requires |u| < buf.Length && buf[..|u|] == u && buf[|u|] == 0 && 0 !in u
    ensures n == |u|
  {
    n := 0;
    assert forall k :: 0 <= k < |u| ==> u[k] == buf[..|u|][k] == buf[k] && u[k] != 0;
    while buf[n] != 0
      invariant n <= |u|
      decreases |u| - n
    {
      n := n + 1;
    }
  }

  // The loop over the code points: whether all are valid, and whether a 0 comes before the last one.
  method Scan(s: Text) returns (valid: bool, binary: bool)
    requires s != []
    ensures valid == U.Decode(s).Some?
    ensures valid ==> var cps := U.Decode(s).value; cps != [] && binary == (0 in cps[..|cps| - 1])
  {
    hide U.CodepointAt;
    var text, len := s + [0], |s|;
    var p, nonPrint := 0, None;
    ghost var cps: seq<nat> := [];
    NothingBefore(U.DecodeFrom(text, 0));
    while p < len
      invariant p <= len && (p == 0 <==> cps == [])
      invariant U.DecodeFrom(text, 0) == U.Prepend(cps, U.DecodeFrom(text, p))
      invariant nonPrint.Some? <==> 0 in cps
      invariant cps != [] && nonPrint.Some? ==>
                  nonPrint.value + 1 <= p && (nonPrint.value + 1 < p <==> 0 in cps[..|cps| - 1])
      decreases len - p
    {
      var codepoint, next := Codepoint(text, p);
      if codepoint.None? {
        return false, false;
      }
      if nonPrint.None? && codepoint.value == 0 {
        nonPrint := Some(next - 1);
      }
      ghost var more := cps + [codepoint.value];
      assert more[..|more| - 1] == cps;
      assert U.Prepend(cps, U.DecodeFrom(text, p)) == U.Prepend(more, U.DecodeFrom(text, next)) by {
        Regroup(cps, codepoint.value, U.DecodeFrom(text, next));
      }
      cps, p := more, next;
    }
    assert U.Decode(s).value == cps;
    valid, binary := true, nonPrint.Some? && nonPrint.value < len - 1;
  }

  lemma NothingBefore(o: Option<seq<nat>>)
    ensures U.Prepend([], o) == o
  {
    if o.Some? {
      assert [] + o.value == o.value;
    }
  }

  lemma Regroup(a: seq<nat>, x: nat, o: Option<seq<nat>>)
    ensures U.Prepend(a, U.Prepend([x], o)) == U.Prepend(a + [x], o)
  {
    if o.Some? {
      assert a + ([x] + o.value) == (a + [x]) + o.value;
    }
  }
}
