/** Decimal numerals and searching as u_sstream.c promises them. */
module SStreamSpec {
  import opened Wrappers

  type Octet = x: int | 0 <= x < 256

  type Text = seq<Octet>

  // The range of a 64-bit long.
  predicate InLong(v: int) { -0x8000_0000_0000_0000 <= v <= 0x7FFF_FFFF_FFFF_FFFF }

  const MINUS: Octet := 45
  const PLUS: Octet := 43

  predicate IsBlank(c: Octet) { c == 32 || c == 9 }

  predicate IsDigit(c: Octet) { 48 <= c <= 57 }

  predicate AllDigits(s: Text) { forall i :: 0 <= i < |s| ==> IsDigit(s[i]) }

  // The number a string of digits stands for.
  function Value(s: Text): nat
    requires AllDigits(s)
  {
    if s == [] then 0 else 10 * Value(s[..|s| - 1]) + (s[|s| - 1] - 48)
  }

  // ----- reading -----

  // s starts with b blanks, a sign of `sign` characters and digits up to e, and no digit follows.
  predicate Numeral(s: Text, b: nat, sign: nat, e: nat) {
    && b + sign < e <= |s| && sign <= 1
    && (forall i :: 0 <= i < b ==> IsBlank(s[i]))
    && (sign == 1 ==> s[b] == MINUS || s[b] == PLUS)
    && AllDigits(s[b + sign..e])
    && (e < |s| ==> !IsDigit(s[e]))
  }

  function NumeralValue(s: Text, b: nat, sign: nat, e: nat): int
    requires Numeral(s, b, sign, e)
  {
    var v: int := Value(s[b + sign..e]);
    if sign == 1 && s[b] == MINUS then -v else v
  }

  // err: 0 accepted, 1 not a numeral, 2 out of range
  datatype Parsed = Parsed(value: int, end: nat, err: nat)

  // The greatest magnitude in the range of long: one more behind a minus sign.
  function Limit(s: Text): nat {
    var b := SkipBlanks(s, 0);
    if b < |s| && s[b] == MINUS then 0x8000_0000_0000_0000 else 0x7FFF_FFFF_FFFF_FFFF
  }

  // The digit at i is the first with which the number leaves the range.
  predicate LeavesRange(s: Text, i: nat) {
    var d := DigitsStart(s);
    d <= i < |s| && AllDigits(s[d..i]) && AllDigits(s[d..i + 1]) && Value(s[d..i]) <= Limit(s) < Value(s[d..i + 1])
  }

  // U_strtol accepts exactly the numerals whose value is in the range of long. Otherwise it stops where
  // the digits should start, or at the digit that leaves the range.
  ghost predicate StrtolMeaning(s: Text, r: Parsed) {
    && r.end <= |s|
    && (r.err == 0 ==> exists b: nat, sign: nat :: Numeral(s, b, sign, r.end) && NumeralValue(s, b, sign, r.end) == r.value
                                                   && InLong(r.value))
    && (r.err != 0 ==> r.value == 0)
    && (r.err == 1 ==> r.end == DigitsStart(s))
    && (r.err == 2 ==> LeavesRange(s, r.end))
    && (r.err == 1 <==> !exists b: nat, sign: nat, e: nat :: Numeral(s, b, sign, e))
    && (r.err == 2 <==> exists b: nat, sign: nat, e: nat :: Numeral(s, b, sign, e) && r.end < e
                          && !InLong(NumeralValue(s, b, sign, e)))
    && r.err <= 2
  }

  function SkipBlanks(s: Text, i: nat): (r: nat)
    requires i <= |s|
    ensures i <= r <= |s| && (forall j :: i <= j < r ==> IsBlank(s[j])) && (r < |s| ==> !IsBlank(s[r]))
    decreases |s| - i
  {
    if i < |s| && IsBlank(s[i]) then SkipBlanks(s, i + 1) else i
  }

  // Where the digits of a numeral start: after the blanks and an optional sign.
  function DigitsStart(s: Text): (r: nat)
    ensures r <= |s|
  {
    var b := SkipBlanks(s, 0);
    if b < |s| && (s[b] == MINUS || s[b] == PLUS) then b + 1 else b
  }

  // A numeral's blanks, sign and end are determined by the text.
  lemma NumeralUnique(s: Text, b: nat, sign: nat, e: nat)
    requires Numeral(s, b, sign, e)
    ensures b == SkipBlanks(s, 0) && b + sign == DigitsStart(s) && IsDigit(s[b + sign])
    ensures forall i :: b + sign <= i < e ==> IsDigit(s[i])
  {
    assert IsDigit(s[b + sign..e][0]);
    forall i | b + sign <= i < e ensures IsDigit(s[i]) {
      assert s[i] == s[b + sign..e][i - b - sign];
    }
  }

  lemma ValuePrefix(s: Text, k: nat)
    requires AllDigits(s) && k < |s|
    ensures Value(s[..k + 1]) == 10 * Value(s[..k]) + (s[k] - 48)
  {
    assert s[..k + 1][..k] == s[..k];
  }

  lemma {:induction false} ValueGrows(s: Text, k: nat)
    requires AllDigits(s) && k <= |s|
    ensures Value(s[..k]) <= Value(s)
    decreases |s| - k
  {
    if k < |s| {
      ValuePrefix(s, k);
      ValueGrows(s, k + 1);
    } else {
      assert s[..k] == s;
    }
  }

  // ----- printing -----

  // The decimal digits of n, without leading zeros.
  function Digits(n: nat): (s: Text)
    ensures s != [] && AllDigits(s)
  {
    if n < 10 then [48 + n] else Digits(n / 10) + [48 + n % 10]
  }

  function Pow10(k: nat): nat {
    if k == 0 then 1 else 10 * Pow10(k - 1)
  }

  lemma {:induction false} DigitCount(n: nat, k: nat)
    requires 0 < k && n < Pow10(k)
    ensures |Digits(n)| <= k
  {
    assert Pow10(0) == 1 && Pow10(k) == 10 * Pow10(k - 1);
    if n >= 10 {
      DigitCount(n / 10, k - 1);
    }
  }

  // A number of 64 bits has at most 20 digits.
  lemma AtMostTwentyDigits(n: nat)
    requires n < 0x1_0000_0000_0000_0000
    ensures |Digits(n)| <= 20
  {
    hide Digits;
    assert Pow10(5) == 100000 by { assert Pow10(2) == 100; }
    assert Pow10(10) == 100000 * Pow10(5) by { assert Pow10(7) == 100 * Pow10(5); }
    assert Pow10(15) == 100000 * Pow10(10) by { assert Pow10(12) == 100 * Pow10(10); }
    assert Pow10(20) == 100000 * Pow10(15) by { assert Pow10(17) == 100 * Pow10(15); }
    DigitCount(n, 20);
  }

  function Decimal(v: int): Text {
    if v < 0 then [MINUS] + Digits(-v) else Digits(v)
  }

  lemma {:induction false} DigitsValue(n: nat)
    ensures Value(Digits(n)) == n
  {
    if n < 10 {
      assert Digits(n)[..0] == [];
    } else {
      var s := Digits(n);
      assert s[..|s| - 1] == Digits(n / 10);
      DigitsValue(n / 10);
    }
  }

  // A printed number is a numeral for itself, whatever non-digit follows.
  lemma DecimalIsNumeral(v: int, rest: Text)
    requires rest != [] ==> !IsDigit(rest[0])
    ensures var sign := if v < 0 then 1 else 0;
            Numeral(Decimal(v) + rest, 0, sign, |Decimal(v)|)
            && NumeralValue(Decimal(v) + rest, 0, sign, |Decimal(v)|) == v
  {
    var sign := if v < 0 then 1 else 0;
    var s := Decimal(v) + rest;
    var n := if v < 0 then -v else v;
    assert s[sign..|Decimal(v)|] == Digits(n);
    DigitsValue(n);
  }

  lemma SameNumeral(s: Text, b: nat, g: nat, e: nat, b': nat, g': nat, e': nat)
    requires Numeral(s, b, g, e) && Numeral(s, b', g', e')
    ensures b == b' && g == g' && e == e'
  {
    NumeralUnique(s, b, g, e);
    NumeralUnique(s, b', g', e');
  }

  // The end of the digits that start at i.
  function DigitsEnd(s: Text, i: nat): (e: nat)
    requires i <= |s|
    ensures i <= e <= |s| && (forall j :: i <= j < e ==> IsDigit(s[j])) && (e < |s| ==> !IsDigit(s[e]))
    decreases |s| - i
  {
    if i < |s| && IsDigit(s[i]) then DigitsEnd(s, i + 1) else i
  }

  // What U_strtol accepts at the start of s: the value and the end, as a function of the text.
  function LongAt(s: Text): (r: Option<(int, nat)>)
    ensures r.Some? ==> r.value.1 <= |s| && InLong(r.value.0)
  {
    var b, d := SkipBlanks(s, 0), DigitsStart(s);
    var e := DigitsEnd(s, d);
    if e == d then None
    else
      var digits := s[d..e];
      var v: int := Value(digits);
      var w := if b < d && s[b] == MINUS then -v else v;
      if InLong(w) then Some((w, e)) else None
  }

  lemma NumeralAt(s: Text, b: nat, start: nat, e: nat)
    requires b == SkipBlanks(s, 0) && start == DigitsStart(s) && start < e <= |s|
    requires AllDigits(s[start..e]) && (e < |s| ==> !IsDigit(s[e]))
    ensures b < |s| && b <= start && Numeral(s, b, start - b, e)
    ensures NumeralValue(s, b, start - b, e) == if s[b] == MINUS then 0 - Value(s[start..e]) else Value(s[start..e])
  {
    hide Value, IsBlank, IsDigit;
    assert s[start..e][0] == s[start];
    assert b + (start - b) == start;
  }

  lemma LongAtIsNumeral(s: Text)
    requires DigitsStart(s) < DigitsEnd(s, DigitsStart(s))
    ensures var b, d := SkipBlanks(s, 0), DigitsStart(s);
            var e := DigitsEnd(s, d);
            && b <= d && Numeral(s, b, d - b, e)
            && (LongAt(s) == if InLong(NumeralValue(s, b, d - b, e)) then Some((NumeralValue(s, b, d - b, e), e)) else None)
  {
    hide Value, IsBlank, Numeral, NumeralValue, SkipBlanks, DigitsEnd;
    var d := DigitsStart(s);
    var e := DigitsEnd(s, d);
    DigitsAre(s, d, e);
    NumeralAt(s, SkipBlanks(s, 0), d, e);
  }

  // Reading undoes printing exactly for the numbers in the range of long, whatever non-digit follows.
  lemma ReadsWhatWasPrinted(v: int, rest: Text)
    requires rest != [] ==> !IsDigit(rest[0])
    ensures LongAt(Decimal(v) + rest) == if InLong(v) then Some((v, |Decimal(v)|)) else None
  {
    hide Value, Decimal, LongAt, SkipBlanks, DigitsStart, DigitsEnd, NumeralValue, Numeral;
    var s, sign := Decimal(v) + rest, if v < 0 then 1 else 0;
    DecimalIsNumeral(v, rest);
    NumeralUnique(s, 0, sign, |Decimal(v)|);
    NumeralEnd(s, 0, sign, |Decimal(v)|);
    LongAtIsNumeral(s);
  }

  lemma LongAtNumeral(s: Text, b: nat, sign: nat, e: nat)
    requires Numeral(s, b, sign, e) && InLong(NumeralValue(s, b, sign, e))
    ensures LongAt(s) == Some((NumeralValue(s, b, sign, e), e))
  {
    hide Value, LongAt, SkipBlanks, DigitsStart, DigitsEnd, NumeralValue, Numeral;
    NumeralUnique(s, b, sign, e);
    NumeralEnd(s, b, sign, e);
    LongAtIsNumeral(s);
  }

  // "-42" is printed for minus 42, and a space, a tabulator and "+12x" are read as 12 up to the x.
  lemma NumeralExamples()
    ensures Decimal(-42) == [45, 52, 50]
    ensures LongAt([32, 9, 43, 49, 50, 120]) == Some((12, 5))
  {
    var s: Text := [32, 9, 43, 49, 50, 120];
    var d: Text := [49, 50];
    assert s[3..5] == d && d[..1] == [49] && [49][..0] == [];
    assert AllDigits([49]) && Value([49]) == 1 && Value(d) == 12;
    assert Digits(42) == Digits(4) + [50];
    LongAtNumeral(s, 2, 1, 5);
  }

  lemma NumeralEnd(s: Text, b: nat, sign: nat, e: nat)
    requires Numeral(s, b, sign, e)
    ensures b + sign < e && DigitsEnd(s, b + sign) == e
  {
    hide IsBlank, IsDigit;
    assert forall j :: b + sign <= j < e ==> s[j] == s[b + sign..e][j - b - sign];
  }

  lemma DigitsAre(s: Text, d: nat, e: nat)
    requires d <= e <= |s| && forall j :: d <= j < e ==> IsDigit(s[j])
    ensures AllDigits(s[d..e])
  {
  }

  // The function agrees with the grammar.
  lemma StrtolIsLongAt(s: Text, r: Parsed)
    requires StrtolMeaning(s, r)
    ensures r.err == 0 <==> LongAt(s).Some?
    ensures r.err == 0 ==> LongAt(s) == Some((r.value, r.end))
  {
    hide Value, IsBlank, SkipBlanks, DigitsStart, DigitsEnd, LongAt, NumeralValue, LeavesRange;
    var b, d := SkipBlanks(s, 0), DigitsStart(s);
    var e := DigitsEnd(s, d);
    if d < e { LongAtIsNumeral(s); } else { NoDigits(s); }
    if r.err == 0 {
      var b': nat, g: nat :| Numeral(s, b', g, r.end) && NumeralValue(s, b', g, r.end) == r.value && InLong(r.value);
      if d < e { SameNumeral(s, b, d - b, e, b', g, r.end); }
    } else if r.err == 2 {
      var b': nat, g: nat, e': nat :| Numeral(s, b', g, e') && r.end < e' && !InLong(NumeralValue(s, b', g, e'));
      if d < e { SameNumeral(s, b, d - b, e, b', g, e'); }
    }
  }

  lemma PrefixValue(s: Text, start: nat, i: nat, e: nat)
    requires start <= i <= e <= |s| && AllDigits(s[start..i]) && AllDigits(s[start..e])
    ensures Value(s[start..i]) <= Value(s[start..e])
  {
    hide Value;
    ValueGrows(s[start..e], i - start);
    assert s[start..e][..i - start] == s[start..i];
  }

  lemma LeavesRangeOnce(s: Text, i: nat, j: nat)
    requires LeavesRange(s, i) && LeavesRange(s, j)
    ensures i >= j
  {
    hide Value, Limit;
    if i < j {
      PrefixValue(s, DigitsStart(s), i + 1, j);
    }
  }

  // The meaning leaves no choice: value, end and error are determined by the text.
  lemma StrtolDetermined(s: Text, r: Parsed, q: Parsed)
    requires StrtolMeaning(s, r) && StrtolMeaning(s, q)
    ensures r == q
  {
    hide LeavesRange, LongAt, Numeral, NumeralValue;
    StrtolIsLongAt(s, r);
    StrtolIsLongAt(s, q);
    if r.err == 2 && q.err == 2 {
      LeavesRangeOnce(s, r.end, q.end);
      LeavesRangeOnce(s, q.end, r.end);
    }
  }

  lemma NoDigits(s: Text)
    requires DigitsStart(s) == DigitsEnd(s, DigitsStart(s))
    ensures LongAt(s).None? && forall b: nat, g: nat, e: nat :: !Numeral(s, b, g, e)
  {
    forall b: nat, g: nat, e: nat ensures !Numeral(s, b, g, e) {
      if Numeral(s, b, g, e) { NumeralUnique(s, b, g, e); }
    }
  }

  // ----- searching -----

  predicate MatchesAt(s: Text, pat: Text, i: nat) {
    i + |pat| <= |s| && s[i..i + |pat|] == pat
  }

  // The first place from i on where pat occurs, or |s|.
  function FindFrom(s: Text, pat: Text, i: nat): (r: nat)
    requires i <= |s| && pat != []
    ensures i <= r <= |s|
    ensures r < |s| ==> MatchesAt(s, pat, r)
    ensures forall j :: i <= j < r ==> !MatchesAt(s, pat, j)
    decreases |s| - i
  {
    if i == |s| || MatchesAt(s, pat, i) then i else FindFrom(s, pat, i + 1)
  }
}
