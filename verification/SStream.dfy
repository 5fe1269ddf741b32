/** The string stream of u_sstream.c: a cursor over a character buffer. */
module SStream {
  import opened SStreamSpec

  datatype Status = Ok | ErrRange | ErrInvalid | ErrNoSpace

  // U_strtol with a 64-bit long. `end` is where endp points.
  method Strtol(s: Text) returns (r: Parsed)
    ensures StrtolMeaning(s, r)
  {
    hide StrtolMeaning, Value, Numeral, NumeralValue;
    var max: int, maxNeg: int := 9223372036854775807, 9223372036854775808;
    var i, negative := 0, false;
    if |s| == 0 {
      NotANumeral(s, 0);
      return Parsed(0, 0, 1);
    }
    while i < |s| && (s[i] == 32 || s[i] == 9)
      invariant i <= |s| && SkipBlanks(s, i) == SkipBlanks(s, 0)
    {
      i := i + 1;
    }
    assert i == SkipBlanks(s, 0);
    if i >= |s| {
      NotANumeral(s, i);
      return Parsed(0, i, 1);
    }
    ghost var b := i;
    if s[i] == 45 {
      negative := true;
      i := i + 1;
    } else if s[i] == 43 {
      i := i + 1;
    }
    assert i == DigitsStart(s);
    if i >= |s| || s[i] < 48 || s[i] > 57 {
      NotANumeral(s, i);
      return Parsed(0, i, 1);
    }
    var start := i;
    var result, fits;
    result, i, fits := ParseDigits(s, start, if negative then maxNeg else max);
    if !fits {
      Overflow(s, b, start, i, negative);
      return Parsed(0, i, 2);
    }
    r := Parsed(if negative then -result else result, i, 0);
    NumeralAt(s, b, start, i);
    Accepted(s, b, start - b, r);
  }

  // The conversion loop of U_strtol; `limit` is max or max_neg.
  method ParseDigits(s: Text, start: nat, limit: int) returns (result: int, i: nat, fits: bool)
    requires start < |s| && IsDigit(s[start]) && limit >= 9
    ensures start <= i <= |s|
    ensures fits ==> start < i && AllDigits(s[start..i]) && (i < |s| ==> !IsDigit(s[i]))
    ensures fits ==> result == Value(s[start..i]) && 0 <= result <= limit
    ensures !fits ==> i < |s| && AllDigits(s[start..i]) && AllDigits(s[start..i + 1])
                      && Value(s[start..i]) <= limit < Value(s[start..i + 1])
  {
    hide Value;
    result, i, fits := 0, start, true;
    assert Value(s[start..start]) == 0 by { NoValue(s[start..start]); }
    while i < |s| && s[i] >= 48 && s[i] <= 57
      invariant start <= i <= |s| && AllDigits(s[start..i])
      invariant result == Value(s[start..i]) && 0 <= result <= limit
      invariant i == start ==> i < |s| && IsDigit(s[i])
    {
      var digit: int := s[i] - 48;
      DigitsOf(s, start, i, i + 1);
      MoreDigits(s, start, i);
      if result > (limit - digit) / 10 {
        fits := false;
        return;
      }
      result := result * 10 + digit;
      i := i + 1;
    }
  }

  lemma NoValue(s: Text)
    requires s == []
    ensures Value(s) == 0
  {
  }

  lemma MoreDigits(s: Text, start: nat, i: nat)
    requires start <= i < |s| && AllDigits(s[start..i]) && AllDigits(s[start..i + 1])
    ensures Value(s[start..i + 1]) == 10 * Value(s[start..i]) + (s[i] as int - 48)
  {
    assert s[start..i + 1][..i - start] == s[start..i];
  }

  lemma NotANumeral(s: Text, i: nat)
    requires i == DigitsStart(s) && (i < |s| ==> !IsDigit(s[i]))
    ensures StrtolMeaning(s, Parsed(0, i, 1))
  {
    forall b: nat, sign: nat, e: nat | Numeral(s, b, sign, e) ensures false {
      NumeralUnique(s, b, sign, e);
    }
  }

  lemma DigitsOf(s: Text, i: nat, j: nat, e: nat)
    requires i <= j <= e <= |s| && AllDigits(s[i..j]) && forall k :: j <= k < e ==> IsDigit(s[k])
    ensures AllDigits(s[i..e])
  {
    assert s[i..e] == s[i..j] + s[j..e];
  }

  lemma AllTheDigits(s: Text, i: nat, j: nat) returns (e: nat)
    requires i <= j <= |s| && AllDigits(s[i..j])
    ensures j <= e <= |s| && AllDigits(s[i..e]) && (e < |s| ==> !IsDigit(s[e]))
  {
    e := DigitsEnd(s, j);
    DigitsOf(s, i, j, e);
  }

  // Digits that already exceed the range can only be continued out of range.
  lemma Overflow(s: Text, b: nat, start: nat, i: nat, negative: bool)
    requires b == SkipBlanks(s, 0) && start == DigitsStart(s) && start <= i < |s|
    requires b < |s| && negative == (s[b] == MINUS)
    requires AllDigits(s[start..i]) && AllDigits(s[start..i + 1])
    requires Value(s[start..i]) <= (if negative then 0x8000_0000_0000_0000 else 0x7FFF_FFFF_FFFF_FFFF) < Value(s[start..i + 1])
    ensures StrtolMeaning(s, Parsed(0, i, 2))
  {
    hide StrtolMeaning, Value, Numeral, NumeralValue, AllDigits, SkipBlanks, DigitsStart;
    assert LeavesRange(s, i);
    var e := AllTheDigits(s, start, i + 1);
    NumeralAt(s, b, start, e);
    PrefixValue(s, start, i + 1, e);
    assert !InLong(NumeralValue(s, b, start - b, e));
    OutOfRange(s, b, start - b, e, i);
  }

  lemma OutOfRange(s: Text, b: nat, sign: nat, e: nat, i: nat)
    requires Numeral(s, b, sign, e) && i < e && !InLong(NumeralValue(s, b, sign, e)) && LeavesRange(s, i)
    ensures StrtolMeaning(s, Parsed(0, i, 2))
  {
    hide LeavesRange;
  }

  lemma Accepted(s: Text, b: nat, sign: nat, r: Parsed)
    requires Numeral(s, b, sign, r.end) && r.err == 0
    requires NumeralValue(s, b, sign, r.end) == r.value && InLong(r.value)
    ensures StrtolMeaning(s, r)
  {
    forall b': nat, g: nat, e: nat | Numeral(s, b', g, e) ensures e == r.end {
      SameNumeral(s, b, sign, r.end, b', g, e);
    }
  }

  // C's truncating division of a long by ten, and the absolute value of the remainder.
  function TruncDiv10(n: int): int {
    if n >= 0 then n / 10 else -((-n) / 10)
  }

  function AbsRem10(n: int): nat {
    if n >= 0 then n % 10 else (-n) % 10
  }

  function Abs(n: int): nat {
    if n >= 0 then n else -n
  }

  class SStream {
    const str: array<Octet>
    var pos: nat
    const len: nat
    var status: Status

    // The size handed to U_sstream_init is that of the buffer or less.
    ghost predicate Valid()
      reads this
    {
      len <= str.Length < 0x1_0000_0000 && pos <= len
    }

    // U_sstream_init
    constructor (str: array<Octet>, size: nat)
      requires size <= str.Length < 0x1_0000_0000
      ensures Valid() && this.str == str && pos == 0 && len == size
      ensures status == if size != 0 then Ok else ErrInvalid
    {
      this.str, pos, len := str, 0, size;
      status := if size != 0 then Ok else ErrInvalid;
    }

    // U_sstream_seek
    method Seek(p: nat)
      modifies this`pos
      ensures pos == if p <= len then p else old(pos)
    {
      if p <= len {
        pos := p;
      }
    }

    // U_sstream_put_str; `s` is the text before its terminator.
    method PutStr(s: Text)
      requires Valid()
      modifies this`pos, this`status, str
      ensures Valid()
      ensures if old(status) != Ok || len == 0 then pos == old(pos) && status == old(status) && str[..] == old(str[..])
              else if |s| >= len - old(pos) then status == ErrNoSpace && pos == old(pos) && str[..] == old(str[..])
              else status == Ok && pos == old(pos) + |s|
                   && str[..] == old(str[..])[..old(pos)] + (s + [0]) + old(str[..])[old(pos) + |s| + 1..]
    {
      if status != Ok || len == 0 {
        return;
      }
      if pos >= len || |s| >= len - pos {
        status := ErrNoSpace;
        return;
      }
      Copy(s + [0]);
      pos := pos + |s|;
    }

    // Writing a piece of text at the cursor.
    method Copy(s: Text)
      requires Valid() && pos + |s| <= len
      modifies str
      ensures str[..] == old(str[..])[..pos] + s + old(str[..])[pos + |s|..]
    {
      for k := 0 to |s|
        invariant forall j :: 0 <= j < str.Length ==> str[j] == if pos <= j < pos + k then s[j - pos] else old(str[j])
      {
        str[pos + k] := s[k];
      }
    }

    // U_sstream_put_long, and U_sstream_put_longlong where long has 64 bits. The digits are produced in
    // reverse by C's truncating operators, so the least long needs no special case.
    method PutLong(num: int)
      requires Valid() && InLong(num)
      modifies this`pos, this`status, str
      ensures Valid()
      ensures if old(status) != Ok || len <= old(pos) then pos == old(pos) && status == old(status) && str[..] == old(str[..])
              else if len - old(pos) < |Decimal(num)| + 1 then status == ErrNoSpace && pos == old(pos) && str[..] == old(str[..])
              else status == Ok && pos == old(pos) + |Decimal(num)|
                   && str[..] == old(str[..])[..old(pos)] + (Decimal(num) + [0]) + old(str[..])[old(pos) + |Decimal(num)| + 1..]
    {
      hide Digits, Reversed, Decimal, AbsRem10, TruncDiv10;
      DecimalParts(num);
      if status != Ok || len <= pos {
        return;
      }
      var buf := ReversedDigits(num);
      if len - pos < |buf| + 1 + (if num < 0 then 1 else 0) {
        status := ErrNoSpace;
        return;
      }
      ghost var before, start := str[..], pos;
      if num < 0 {
        str[pos] := MINUS;
        pos := pos + 1;
      }
      PutReversed(buf);
      Written(before, str[..], start, Decimal(num));
    }

    // U_sstream_put_ulonglong
    method PutULongLong(num: nat)
      requires Valid() && num < 0x1_0000_0000_0000_0000
      modifies this`pos, this`status, str
      ensures Valid()
      ensures if old(status) != Ok || len <= old(pos) then pos == old(pos) && status == old(status) && str[..] == old(str[..])
              else if len - old(pos) < |Decimal(num)| + 1 then status == ErrNoSpace && pos == old(pos) && str[..] == old(str[..])
              else status == Ok && pos == old(pos) + |Decimal(num)|
                   && str[..] == old(str[..])[..old(pos)] + (Decimal(num) + [0]) + old(str[..])[old(pos) + |Decimal(num)| + 1..]
    {
      hide Digits, Reversed, Decimal;
      DecimalParts(num);
      if status != Ok || len <= pos {
        return;
      }
      var buf := ReversedUnsigned(num);
      if len - pos < |buf| + 1 {
        status := ErrNoSpace;
        return;
      }
      ghost var before, start := str[..], pos;
      PutReversed(buf);
      Written(before, str[..], start, Decimal(num));
    }

    // The reverse copy at the end of the printing functions, with the terminator.
    method PutReversed(buf: Text)
      requires Valid() && pos + |buf| < len
      modifies this`pos, str
      ensures Valid() && pos == old(pos) + |buf|
      ensures forall j :: 0 <= j < str.Length ==>
                str[j] == if old(pos) <= j < pos then Reversed(buf)[j - old(pos)] else if j == pos then 0 else old(str[j])
    {
      hide Reversed;
      var i := |buf|;
      ghost var r := Reversed(buf);
      while i > 0
        invariant 0 <= i <= |buf| && pos + i == old(pos) + |buf|
        invariant forall j :: 0 <= j < str.Length ==>
                    str[j] == if old(pos) <= j < pos then r[j - old(pos)] else old(str[j])
      {
        ReversedAt(buf, i - 1);
        str[pos] := buf[i - 1];
        pos := pos + 1;
        i := i - 1;
      }
      str[pos] := 0;
    }

    // U_sstream_get_long
    method GetLong() returns (r: int)
      requires Valid()
      modifies this`pos, this`status
      ensures Valid()
      ensures old(status) == Ok && old(pos) < len ==>
                var v := LongAt(str[old(pos)..len]);
                && (status == Ok <==> v.Some?)
                && (v.Some? ==> r == v.value.0 && pos == old(pos) + v.value.1)
                && (v.None? ==> r == 0)
      ensures if old(status) != Ok || len <= old(pos) then r == 0 && pos == old(pos) && status == old(status)
              else exists p :: StrtolMeaning(str[old(pos)..len], p) && r == p.value && pos == old(pos) + p.end
                               && status == if p.err == 0 then Ok else if p.err == 1 then ErrInvalid else ErrRange
    {
      r := 0;
      if status != Ok {
        return;
      }
      if pos < len {
        hide StrtolMeaning, LongAt;
        var p := Strtol(str[pos..len]);
        MeaningEnd(str[pos..len], p);
        StrtolIsLongAt(str[pos..len], p);
        r := p.value;
        if p.err != 0 {
          status := if p.err == 1 then ErrInvalid else ErrRange;
          r := 0;
        }
        pos := pos + p.end;
      }
    }

    // U_sstream_find; an empty search text is not found.
    method Find(pat: Text) returns (found: bool)
      requires Valid()
      modifies this`pos
      ensures Valid()
      ensures if status != Ok || len <= old(pos) || pat == [] then !found && pos == old(pos)
              else var p := FindFrom(str[..len], pat, old(pos));
                   found == (p < len) && pos == if found then p else old(pos)
    {
      found := false;
      if status != Ok || len <= pos || |pat| == 0 {
        return;
      }
      var p := pos;
      while p < len && len - p >= |pat|
        invariant pos <= p <= len && FindFrom(str[..len], pat, p) == FindFrom(str[..len], pat, pos)
      {
        var piece := str[p..p + |pat|];
        assert forall k :: 0 <= k < |pat| ==> piece[k] == str[..len][p + k];
        assert piece == str[..len][p..p + |pat|];
        if piece == pat {
          pos := p;
          return true;
        }
        p := p + 1;
      }
      NoRoom(str[..len], pat, p);
    }

    // Printing any long and reading it back from the same place is the identity.
    method PrintAndReadBack(v: int) returns (r: int)
      requires Valid() && InLong(v) && status == Ok && |Decimal(v)| < len - pos
      modifies this`pos, this`status, str
      ensures Valid() && r == v && status == Ok && pos == old(pos) + |Decimal(v)|
    {
      hide StrtolMeaning, LongAt, Decimal;
      var start := pos;
      PutLong(v);
      r := ReadBackFrom(start, v);
    }

    // An unsigned number comes back exactly when it is in the range of long.
    method PrintUnsignedAndReadBack(v: nat) returns (r: int)
      requires Valid() && v < 0x1_0000_0000_0000_0000 && status == Ok && |Decimal(v)| < len - pos
      modifies this`pos, this`status, str
      ensures Valid() && (status == Ok <==> InLong(v)) && r == if InLong(v) then v else 0
    {
      hide StrtolMeaning, LongAt, Decimal;
      var start := pos;
      PutULongLong(v);
      r := ReadBackFrom(start, v);
    }

    // Seeking back to a printed number and reading it.
    method ReadBackFrom(start: nat, ghost v: int) returns (r: int)
      requires Valid() && status == Ok && start + |Decimal(v)| < len
      requires str[start..start + |Decimal(v)| + 1] == Decimal(v) + [0]
      modifies this`pos, this`status
      ensures Valid() && (status == Ok <==> InLong(v)) && r == (if InLong(v) then v else 0)
      ensures InLong(v) ==> pos == start + |Decimal(v)|
    {
      hide StrtolMeaning, LongAt, Decimal;
      Seek(start);
      ghost var s := str[start..len];
      ghost var rest := [0] + str[start + |Decimal(v)| + 1..len];
      assert s == str[start..start + |Decimal(v)| + 1] + str[start + |Decimal(v)| + 1..len];
      assert s == Decimal(v) + rest && rest[0] == 0;
      ReadsWhatWasPrinted(v, rest);
      r := GetLong();
    }
  }

  // The do-while loop of U_sstream_put_ulonglong, which collects the digits in 24 bytes.
  method ReversedUnsigned(num: nat) returns (buf: Text)
    ensures Reversed(buf) == Digits(num)
    ensures num < 0x1_0000_0000_0000_0000 ==> |buf| <= 20
  {
    hide Reversed, Digits;
    if num < 0x1_0000_0000_0000_0000 { AtMostTwentyDigits(num); }
    var n := num;
    var remainder := n % 10;
    FirstDigit(n);
    n := n / 10;
    buf := [48 + remainder];
    while n != 0
      invariant (if n == 0 then [] else Digits(n)) + Reversed(buf) == Digits(num)
    {
      remainder := n % 10;
      DigitsFromTheRight(n, buf);
      n := n / 10;
      buf := buf + [48 + remainder];
    }
    assert [] + Reversed(buf) == Reversed(buf);
  }

  lemma {:induction false} NoRoom(s: Text, pat: Text, i: nat)
    requires i <= |s| && pat != [] && |s| - i < |pat|
    ensures FindFrom(s, pat, i) == |s|
    decreases |s| - i
  {
    if i < |s| { NoRoom(s, pat, i + 1); }
  }

  lemma DecimalParts(v: int)
    ensures var sign := if v < 0 then 1 else 0;
            && |Decimal(v)| == sign + |Digits(Abs(v))| && (v < 0 ==> Decimal(v)[0] == MINUS)
            && forall k :: 0 <= k < |Digits(Abs(v))| ==> Decimal(v)[sign + k] == Digits(Abs(v))[k]
  {
  }

  lemma Written(before: Text, after: Text, start: nat, text: Text)
    requires start + |text| < |before| == |after|
    requires forall j :: 0 <= j < |before| ==>
               after[j] == if start <= j < start + |text| then text[j - start]
                           else if j == start + |text| then 0 else before[j]
    ensures after == before[..start] + (text + [0]) + before[start + |text| + 1..]
  {
  }

  lemma MeaningEnd(s: Text, r: Parsed)
    requires StrtolMeaning(s, r)
    ensures 0 <= r.end <= |s| && r.err <= 2 && (r.err != 0 ==> r.value == 0)
  {
  }

  function Reversed(s: Text): (r: Text)
    ensures |r| == |s|
  {
    if s == [] then [] else Reversed(s[1..]) + [s[0]]
  }

  lemma {:induction false} ReversedAt(s: Text, k: nat)
    requires k < |s|
    ensures Reversed(s)[|s| - 1 - k] == s[k]
  {
    if k > 0 { ReversedAt(s[1..], k - 1); }
  }

  lemma {:induction false} ReversedSnoc(s: Text, x: Octet)
    ensures Reversed(s + [x]) == [x] + Reversed(s)
  {
    if s != [] {
      assert (s + [x])[1..] == s[1..] + [x];
      ReversedSnoc(s[1..], x);
    }
  }

  lemma DigitsFromTheRight(m: nat, buf: Text)
    requires m > 0
    ensures Digits(m) + Reversed(buf) == (if m < 10 then [] else Digits(m / 10)) + Reversed(buf + [48 + m % 10])
  {
    hide Reversed;
    ReversedSnoc(buf, 48 + m % 10);
    assert Digits(m) == (if m < 10 then [] else Digits(m / 10)) + [48 + m % 10];
  }

  // The do-while loop of U_sstream_put_long, which collects the digits in 24 bytes.
  method ReversedDigits(num: int) returns (buf: Text)
    requires InLong(num)
    ensures Reversed(buf) == Digits(Abs(num)) && |buf| <= 20
  {
    hide Reversed, Digits;
    AtMostTwentyDigits(Abs(num));
    var n := num;
    var remainder := AbsRem10(n);
    ghost var whole := Digits(Abs(num));
    FirstDigit(Abs(num));
    n := TruncDiv10(n);
    buf := [48 + remainder];
    while n != 0
      invariant (if n == 0 then [] else Digits(Abs(n))) + Reversed(buf) == whole
      decreases Abs(n)
    {
      remainder := AbsRem10(n);
      DigitsFromTheRight(Abs(n), buf);
      n := TruncDiv10(n);
      buf := buf + [48 + remainder];
    }
    assert [] + Reversed(buf) == Reversed(buf);
  }

  lemma FirstDigit(m: nat)
    ensures Digits(m) == (if m < 10 then [] else Digits(m / 10)) + Reversed([48 + m % 10])
  {
    assert [48 + m % 10][1..] == [];
    assert Reversed([48 + m % 10]) == [48 + m % 10];
  }
}
