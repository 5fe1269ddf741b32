/** Numbers as octets, the lowest first. */
module Endian {
  import opened SStreamSpec
  import Cyclic

  function Pow256(n: nat): (p: nat)
    ensures p > 0
  {
    if n == 0 then 1 else 256 * Pow256(n - 1)
  }

  function LittleEndian(v: nat, n: nat): (b: Text)
    ensures |b| == n
  {
    if n == 0 then [] else [v % 256] + LittleEndian(v / 256, n - 1)
  }

  function FromLittleEndian(b: Text): nat {
    if b == [] then 0 else b[0] + 256 * FromLittleEndian(b[1..])
  }

  lemma SplitModulo(v: nat, p: nat)
    requires p > 0
    ensures v % (256 * p) == v % 256 + 256 * ((v / 256) % p)
  {
    var w := v / 256;
    var q, r := w / p, w % p;
    assert w == p * q + r;
    assert v == (256 * p) * q + (v % 256 + 256 * r) by {
      assert 256 * (p * q) == (256 * p) * q;
    }
    Cyclic.ModuloIs(v, 256 * p, q, v % 256 + 256 * r);
  }

  // The sum of the octets, octet i weighing 256^i
  function Weighted(b: Text): nat {
    if b == [] then 0 else Weighted(b[..|b| - 1]) + b[|b| - 1] * Pow256(|b| - 1)
  }

  lemma {:induction false} WeightedShift(x: Octet, b: Text)
    ensures Weighted([x] + b) == x + 256 * Weighted(b)
    decreases |b|
  {
    var s, n := [x] + b, |b|;
    if n == 0 {
      assert s == [x] && s[..0] == [] && Pow256(0) == 1;
    } else {
      var y, p := b[n - 1], Pow256(n - 1);
      WeightedShift(x, b[..n - 1]);
      assert s[..n] == [x] + b[..n - 1] && s[n] == y && Pow256(n) == 256 * p;
      assert y * (256 * p) == 256 * (y * p);
    }
  }

  // The lowest octet comes first.
  lemma {:induction false} FirstOctetLowest(b: Text)
    ensures FromLittleEndian(b) == Weighted(b)
  {
    if b != [] {
      FirstOctetLowest(b[1..]);
      WeightedShift(b[0], b[1..]);
      assert [b[0]] + b[1..] == b;
    }
  }

  // n bytes carry a number modulo 256^n.
  lemma {:induction false} LittleEndianValue(v: nat, n: nat)
    ensures FromLittleEndian(LittleEndian(v, n)) == v % Pow256(n)
  {
    if n > 0 {
      LittleEndianValue(v / 256, n - 1);
      SplitModulo(v, Pow256(n - 1));
      assert LittleEndian(v, n)[1..] == LittleEndian(v / 256, n - 1);
    }
  }

  lemma {:induction false} FromLittleEndianBound(b: Text)
    ensures FromLittleEndian(b) < Pow256(|b|)
  {
    if b != [] {
      FromLittleEndianBound(b[1..]);
    }
  }

  lemma {:induction false} LittleEndianOf(b: Text)
    ensures LittleEndian(FromLittleEndian(b), |b|) == b
  {
    if b != [] {
      LittleEndianOf(b[1..]);
      var v := FromLittleEndian(b[1..]);
      assert (b[0] + 256 * v) / 256 == v && (b[0] + 256 * v) % 256 == b[0];
    }
  }

  lemma Powers()
    ensures Pow256(1) == 0x100 && Pow256(2) == 0x1_0000 && Pow256(3) == 0x100_0000 && Pow256(4) == 0x1_0000_0000
    ensures Pow256(5) == 0x100_0000_0000 && Pow256(6) == 0x1_0000_0000_0000 && Pow256(7) == 0x100_0000_0000_0000
    ensures Pow256(8) == 0x1_0000_0000_0000_0000
  {
    assert Pow256(2) == 256 * Pow256(1);
    assert Pow256(4) == 256 * Pow256(3);
    assert Pow256(6) == 256 * Pow256(5);
  }
}
