/** The Secure Hash Algorithm SHA-256 as FIPS 180-4 defines it. */
module Sha256Spec {
  import opened FileSystem

  // A 32-bit word as a number. Sums are taken modulo 2^32, bitwise operations on its binary form.
  type Word = x: int | 0 <= x < 0x1_0000_0000

  type Bits = bv32

  // ----- constants -----

  // The first sixty-four primes.
  const PRIMES: seq<seq<nat>> := [
    [2, 3, 5, 7, 11, 13, 17, 19],
    [23, 29, 31, 37, 41, 43, 47, 53],
    [59, 61, 67, 71, 73, 79, 83, 89],
    [97, 101, 103, 107, 109, 113, 127, 131],
    [137, 139, 149, 151, 157, 163, 167, 173],
    [179, 181, 191, 193, 197, 199, 211, 223],
    [227, 229, 233, 239, 241, 251, 257, 263],
    [269, 271, 277, 281, 283, 293, 307, 311]
  ]

  // Section 4.2.2; RoundConstants shows that these are the numbers the standard describes.
  const K: seq<seq<nat>> := [
    [0x428a2f98, 0x71374491, 0xb5c0fbcf, 0xe9b5dba5, 0x3956c25b, 0x59f111f1, 0x923f82a4, 0xab1c5ed5],
    [0xd807aa98, 0x12835b01, 0x243185be, 0x550c7dc3, 0x72be5d74, 0x80deb1fe, 0x9bdc06a7, 0xc19bf174],
    [0xe49b69c1, 0xefbe4786, 0x0fc19dc6, 0x240ca1cc, 0x2de92c6f, 0x4a7484aa, 0x5cb0a9dc, 0x76f988da],
    [0x983e5152, 0xa831c66d, 0xb00327c8, 0xbf597fc7, 0xc6e00bf3, 0xd5a79147, 0x06ca6351, 0x14292967],
    [0x27b70a85, 0x2e1b2138, 0x4d2c6dfc, 0x53380d13, 0x650a7354, 0x766a0abb, 0x81c2c92e, 0x92722c85],
    [0xa2bfe8a1, 0xa81a664b, 0xc24b8b70, 0xc76c51a3, 0xd192e819, 0xd6990624, 0xf40e3585, 0x106aa070],
    [0x19a4c116, 0x1e376c08, 0x2748774c, 0x34b0bcb5, 0x391c0cb3, 0x4ed8aa4a, 0x5b9cca4f, 0x682e6ff3],
    [0x748f82ee, 0x78a5636f, 0x84c87814, 0x8cc70208, 0x90befffa, 0xa4506ceb, 0xbef9a3f7, 0xc67178f2]
  ]

  // Section 5.3.3
  const H0: seq<nat> := [0x6a09e667, 0xbb67ae85, 0x3c6ef372, 0xa54ff53a, 0x510e527f, 0x9b05688c, 0x1f83d9ab, 0x5be0cd19]

  function Prime(i: nat): nat
    requires i < 64
  {
    PRIMES[i / 8][i % 8]
  }

  function RoundConstant(i: nat): (k: nat)
    requires i < 64
  {
    K[i / 8][i % 8]
  }

  // The integer parts of the roots of these primes.
  function CubeFloor(p: nat): nat {
    if p < 8 then 1 else if p < 27 then 2 else if p < 64 then 3 else if p < 125 then 4 else if p < 216 then 5 else 6
  }

  function SquareFloor(p: nat): nat {
    if p < 4 then 1 else if p < 9 then 2 else if p < 16 then 3 else 4
  }

  // k is the first thirty-two bits of the fractional part of the cube root of p.
  predicate CubeRootBits(p: nat, k: nat) {
    k < 0x1_0000_0000 && CubeBrackets(p, CubeFloor(p) * 0x1_0000_0000 + k)
  }

  predicate CubeBrackets(p: nat, root: nat) {
    root * root * root <= p * 0x1_0000_0000_0000_0000_0000_0000 < (root + 1) * (root + 1) * (root + 1)
  }

  // k is the first thirty-two bits of the fractional part of the square root of p.
  predicate SquareRootBits(p: nat, k: nat) {
    k < 0x1_0000_0000 && SquareBrackets(p, SquareFloor(p) * 0x1_0000_0000 + k)
  }

  predicate SquareBrackets(p: nat, root: nat) {
    root * root <= p * 0x1_0000_0000_0000_0000 < (root + 1) * (root + 1)
  }

  lemma RoundConstants0(i: nat)
    requires 0 <= i < 16
    ensures CubeRootBits(Prime(i), RoundConstant(i))
  {
    assert CubeBrackets(2, 1 * 0x1_0000_0000 + 0x428a2f98);
    assert CubeBrackets(3, 1 * 0x1_0000_0000 + 0x71374491);
    assert CubeBrackets(5, 1 * 0x1_0000_0000 + 0xb5c0fbcf);
    assert CubeBrackets(7, 1 * 0x1_0000_0000 + 0xe9b5dba5);
    assert CubeBrackets(11, 2 * 0x1_0000_0000 + 0x3956c25b);
    assert CubeBrackets(13, 2 * 0x1_0000_0000 + 0x59f111f1);
    assert CubeBrackets(17, 2 * 0x1_0000_0000 + 0x923f82a4);
    assert CubeBrackets(19, 2 * 0x1_0000_0000 + 0xab1c5ed5);
    assert CubeBrackets(23, 2 * 0x1_0000_0000 + 0xd807aa98);
    assert CubeBrackets(29, 3 * 0x1_0000_0000 + 0x12835b01);
    assert CubeBrackets(31, 3 * 0x1_0000_0000 + 0x243185be);
    assert CubeBrackets(37, 3 * 0x1_0000_0000 + 0x550c7dc3);
    assert CubeBrackets(41, 3 * 0x1_0000_0000 + 0x72be5d74);
    assert CubeBrackets(43, 3 * 0x1_0000_0000 + 0x80deb1fe);
    assert CubeBrackets(47, 3 * 0x1_0000_0000 + 0x9bdc06a7);
    assert CubeBrackets(53, 3 * 0x1_0000_0000 + 0xc19bf174);
  }

  lemma RoundConstants1(i: nat)
    requires 16 <= i < 32
    ensures CubeRootBits(Prime(i), RoundConstant(i))
  {
    assert CubeBrackets(59, 3 * 0x1_0000_0000 + 0xe49b69c1);
    assert CubeBrackets(61, 3 * 0x1_0000_0000 + 0xefbe4786);
    assert CubeBrackets(67, 4 * 0x1_0000_0000 + 0x0fc19dc6);
    assert CubeBrackets(71, 4 * 0x1_0000_0000 + 0x240ca1cc);
    assert CubeBrackets(73, 4 * 0x1_0000_0000 + 0x2de92c6f);
    assert CubeBrackets(79, 4 * 0x1_0000_0000 + 0x4a7484aa);
    assert CubeBrackets(83, 4 * 0x1_0000_0000 + 0x5cb0a9dc);
    assert CubeBrackets(89, 4 * 0x1_0000_0000 + 0x76f988da);
    assert CubeBrackets(97, 4 * 0x1_0000_0000 + 0x983e5152);
    assert CubeBrackets(101, 4 * 0x1_0000_0000 + 0xa831c66d);
    assert CubeBrackets(103, 4 * 0x1_0000_0000 + 0xb00327c8);
    assert CubeBrackets(107, 4 * 0x1_0000_0000 + 0xbf597fc7);
    assert CubeBrackets(109, 4 * 0x1_0000_0000 + 0xc6e00bf3);
    assert CubeBrackets(113, 4 * 0x1_0000_0000 + 0xd5a79147);
    assert CubeBrackets(127, 5 * 0x1_0000_0000 + 0x06ca6351);
    assert CubeBrackets(131, 5 * 0x1_0000_0000 + 0x14292967);
  }

  lemma RoundConstants2(i: nat)
    requires 32 <= i < 48
    ensures CubeRootBits(Prime(i), RoundConstant(i))
  {
    assert CubeBrackets(137, 5 * 0x1_0000_0000 + 0x27b70a85);
    assert CubeBrackets(139, 5 * 0x1_0000_0000 + 0x2e1b2138);
    assert CubeBrackets(149, 5 * 0x1_0000_0000 + 0x4d2c6dfc);
    assert CubeBrackets(151, 5 * 0x1_0000_0000 + 0x53380d13);
    assert CubeBrackets(157, 5 * 0x1_0000_0000 + 0x650a7354);
    assert CubeBrackets(163, 5 * 0x1_0000_0000 + 0x766a0abb);
    assert CubeBrackets(167, 5 * 0x1_0000_0000 + 0x81c2c92e);
    assert CubeBrackets(173, 5 * 0x1_0000_0000 + 0x92722c85);
    assert CubeBrackets(179, 5 * 0x1_0000_0000 + 0xa2bfe8a1);
    assert CubeBrackets(181, 5 * 0x1_0000_0000 + 0xa81a664b);
    assert CubeBrackets(191, 5 * 0x1_0000_0000 + 0xc24b8b70);
    assert CubeBrackets(193, 5 * 0x1_0000_0000 + 0xc76c51a3);
    assert CubeBrackets(197, 5 * 0x1_0000_0000 + 0xd192e819);
    assert CubeBrackets(199, 5 * 0x1_0000_0000 + 0xd6990624);
    assert CubeBrackets(211, 5 * 0x1_0000_0000 + 0xf40e3585);
    assert CubeBrackets(223, 6 * 0x1_0000_0000 + 0x106aa070);
  }

  lemma RoundConstants3(i: nat)
    requires 48 <= i < 64
    ensures CubeRootBits(Prime(i), RoundConstant(i))
  {
    assert CubeBrackets(227, 6 * 0x1_0000_0000 + 0x19a4c116);
    assert CubeBrackets(229, 6 * 0x1_0000_0000 + 0x1e376c08);
    assert CubeBrackets(233, 6 * 0x1_0000_0000 + 0x2748774c);
    assert CubeBrackets(239, 6 * 0x1_0000_0000 + 0x34b0bcb5);
    assert CubeBrackets(241, 6 * 0x1_0000_0000 + 0x391c0cb3);
    assert CubeBrackets(251, 6 * 0x1_0000_0000 + 0x4ed8aa4a);
    assert CubeBrackets(257, 6 * 0x1_0000_0000 + 0x5b9cca4f);
    assert CubeBrackets(263, 6 * 0x1_0000_0000 + 0x682e6ff3);
    assert CubeBrackets(269, 6 * 0x1_0000_0000 + 0x748f82ee);
    assert CubeBrackets(271, 6 * 0x1_0000_0000 + 0x78a5636f);
    assert CubeBrackets(277, 6 * 0x1_0000_0000 + 0x84c87814);
    assert CubeBrackets(281, 6 * 0x1_0000_0000 + 0x8cc70208);
    assert CubeBrackets(283, 6 * 0x1_0000_0000 + 0x90befffa);
    assert CubeBrackets(293, 6 * 0x1_0000_0000 + 0xa4506ceb);
    assert CubeBrackets(307, 6 * 0x1_0000_0000 + 0xbef9a3f7);
    assert CubeBrackets(311, 6 * 0x1_0000_0000 + 0xc67178f2);
  }

  // Section 4.2.2: the round constants are the first thirty-two bits of the fractional parts of the
  // cube roots of the first sixty-four primes.
  lemma RoundConstants(i: nat)
    requires i < 64
    ensures CubeRootBits(Prime(i), RoundConstant(i))
  {
    if i < 16 { RoundConstants0(i); }
    else if i < 32 { RoundConstants1(i); }
    else if i < 48 { RoundConstants2(i); }
    else { RoundConstants3(i); }
  }

  // Section 5.3.3: the initial hash value is made from the square roots of the first eight primes.
  lemma InitialValue(i: nat)
    requires i < 8
    ensures SquareRootBits(Prime(i), H0[i])
  {
    assert SquareBrackets(2, 1 * 0x1_0000_0000 + 0x6a09e667);
    assert SquareBrackets(3, 1 * 0x1_0000_0000 + 0xbb67ae85);
    assert SquareBrackets(5, 2 * 0x1_0000_0000 + 0x3c6ef372);
    assert SquareBrackets(7, 2 * 0x1_0000_0000 + 0xa54ff53a);
    assert SquareBrackets(11, 3 * 0x1_0000_0000 + 0x510e527f);
    assert SquareBrackets(13, 3 * 0x1_0000_0000 + 0x9b05688c);
    assert SquareBrackets(17, 4 * 0x1_0000_0000 + 0x1f83d9ab);
    assert SquareBrackets(19, 4 * 0x1_0000_0000 + 0x5be0cd19);
  }

  function KWord(i: nat): Word
    requires i < 64
  {
    RoundConstants(i);
    RoundConstant(i)
  }

  function InitialHash(): (h: seq<Word>)
    ensures |h| == 8
  {
    seq(8, i requires 0 <= i < 8 => InitialValue(i); H0[i])
  }

  // ----- functions, section 4.1.2 -----

  function Plus(x: Word, y: Word): Word {
    (x + y) % 0x1_0000_0000
  }

  function Rotr(x: Bits, n: bv6): Bits
    requires 0 < n < 32
  {
    (x >> n) | (x << (32 - n))
  }

  function ChBits(x: Bits, y: Bits, z: Bits): Bits { (x & y) ^ (!x & z) }

  function MajBits(x: Bits, y: Bits, z: Bits): Bits { (x & y) ^ (x & z) ^ (y & z) }

  function Ch(x: Word, y: Word, z: Word): Word { ChBits(x as Bits, y as Bits, z as Bits) as Word }

  function Maj(x: Word, y: Word, z: Word): Word { MajBits(x as Bits, y as Bits, z as Bits) as Word }

  function BigSigma0Bits(x: Bits): Bits { Rotr(x, 2) ^ Rotr(x, 13) ^ Rotr(x, 22) }

  function BigSigma1Bits(x: Bits): Bits { Rotr(x, 6) ^ Rotr(x, 11) ^ Rotr(x, 25) }

  function SmallSigma0Bits(x: Bits): Bits { Rotr(x, 7) ^ Rotr(x, 18) ^ (x >> 3) }

  function SmallSigma1Bits(x: Bits): Bits { Rotr(x, 17) ^ Rotr(x, 19) ^ (x >> 10) }

  function BigSigma0(x: Word): Word { BigSigma0Bits(x as Bits) as Word }

  function BigSigma1(x: Word): Word { BigSigma1Bits(x as Bits) as Word }

  function SmallSigma0(x: Word): Word { SmallSigma0Bits(x as Bits) as Word }

  function SmallSigma1(x: Word): Word { SmallSigma1Bits(x as Bits) as Word }

  // ----- preprocessing, sections 5.1.1 and 5.2.1 -----

  // n message bytes, the byte 0x80 and z zero bytes leave exactly eight bytes of a block.
  predicate LeavesEight(n: nat, z: nat) {
    (n + 1 + z) % 64 == 56
  }

  // How many zero bytes follow the byte 0x80: the fewest that leave eight bytes of the last block.
  function ZeroBytes(n: nat): (z: nat)
    ensures LeavesEight(n, z) && forall y :: 0 <= y < z ==> !LeavesEight(n, y)
  {
    if n % 64 <= 55 then 55 - n % 64 else 119 - n % 64
  }

  // The k low-order bytes of x, most significant first.
  function BigEndian(x: nat, k: nat): (r: seq<Byte>)
    ensures |r| == k
  {
    if k == 0 then [] else BigEndian(x / 256, k - 1) + [(x % 256) as Byte]
  }

  // x without its m low-order bytes.
  function ShiftBytes(x: nat, m: nat): nat {
    if m == 0 then x else ShiftBytes(x / 256, m - 1)
  }

  lemma {:induction false} BigEndianAt(x: nat, k: nat, i: nat)
    requires i < k
    ensures BigEndian(x, k)[i] == (ShiftBytes(x, k - 1 - i) % 256) as Byte
  {
    if i < k - 1 { BigEndianAt(x / 256, k - 1, i); }
  }

  function Zeros(n: nat): (r: seq<Byte>)
    ensures |r| == n
  {
    seq(n, _ => 0)
  }

  // Section 5.1.1 for messages of whole bytes; their length in bits must fit in 64 bits.
  function Pad(msg: seq<Byte>): (r: seq<Byte>)
    requires |msg| < 0x2000_0000_0000_0000
    ensures |r| % 64 == 0
  {
    var z := ZeroBytes(|msg|);
    assert (|msg| + 1 + z + 8) % 64 == 0;
    msg + [0x80] + Zeros(z) + BigEndian(8 * |msg|, 8)
  }

  function WordAt(block: seq<Byte>, i: nat): Word
    requires 4 * i + 4 <= |block|
  {
    (block[4 * i] as int) * 0x100_0000 + (block[4 * i + 1] as int) * 0x1_0000
    + (block[4 * i + 2] as int) * 0x100 + (block[4 * i + 3] as int)
  }

  // ----- hash computation, section 6.2.2 -----

  // The first t words of the message schedule.
  function Schedule(block: seq<Byte>, t: nat): (w: seq<Word>)
    requires |block| == 64
    ensures |w| == t
  {
    if t == 0 then []
    else
      var w := Schedule(block, t - 1);
      w + [if t <= 16 then WordAt(block, t - 1) else NextWord(w[t - 3], w[t - 8], w[t - 16], w[t - 17])]
  }

  function NextWord(w2: Word, w7: Word, w15: Word, w16: Word): Word {
    Plus(Plus(Plus(SmallSigma1(w2), w7), SmallSigma0(w15)), w16)
  }

  function T1(e: Word, f: Word, g: Word, h: Word, k: Word, w: Word): Word {
    Plus(Plus(Plus(Plus(h, BigSigma1(e)), Ch(e, f, g)), k), w)
  }

  function T2(a: Word, b: Word, c: Word): Word {
    Plus(BigSigma0(a), Maj(a, b, c))
  }

  // One round on the working variables a to h.
  function Round(v: seq<Word>, k: Word, w: Word): (r: seq<Word>)
    requires |v| == 8
    ensures |r| == 8
  {
    var t1, t2 := T1(v[4], v[5], v[6], v[7], k, w), T2(v[0], v[1], v[2]);
    [Plus(t1, t2), v[0], v[1], v[2], Plus(v[3], t1), v[4], v[5], v[6]]
  }

  function Rounds(h: seq<Word>, w: seq<Word>, t: nat): (r: seq<Word>)
    requires |h| == 8 && t <= |w| == 64
    ensures |r| == 8
  {
    if t == 0 then h else Round(Rounds(h, w, t - 1), KWord(t - 1), w[t - 1])
  }

  function Compress(h: seq<Word>, block: seq<Byte>): (r: seq<Word>)
    requires |h| == 8 && |block| == 64
    ensures |r| == 8
  {
    var v := Rounds(h, Schedule(block, 64), 64);
    seq(8, i requires 0 <= i < 8 => Plus(h[i], v[i]))
  }

  // The hash value after all blocks of the data.
  function Blocks(data: seq<Byte>): (h: seq<Word>)
    requires |data| % 64 == 0
    ensures |h| == 8
  {
    if data == [] then InitialHash()
    else Compress(Blocks(data[..|data| - 64]), data[|data| - 64..])
  }

  // Section 6.2 from the front: every block is compressed into the hash value of the blocks before it.
  function Absorb(h: seq<Word>, data: seq<Byte>): (r: seq<Word>)
    requires |h| == 8 && |data| % 64 == 0
    ensures |r| == 8
    decreases |data|
  {
    if data == [] then h
    else
      OneBlockLess(|data|);
      var rest := data[64..];
      assert |rest| == |data| - 64;
      Absorb(Compress(h, data[..64]), rest)
  }

  lemma OneBlockLess(n: nat)
    requires n % 64 == 0 && n > 0
    ensures n >= 64 && (n - 64) % 64 == 0
  {
  }

  lemma {:induction false} AbsorbLast(h: seq<Word>, data: seq<Byte>)
    requires |h| == 8 && |data| % 64 == 0 && data != []
    ensures var n := |data| - 64; Absorb(h, data) == Compress(Absorb(h, data[..n]), data[n..])
    decreases |data|
  {
    hide Compress;
    var n := |data| - 64;
    if n == 0 {
      assert data[..64] == data && data[64..] == [] && data[..0] == [] && data[0..] == data;
    } else {
      var rest := data[64..];
      AbsorbLast(Compress(h, data[..64]), rest);
      assert data[..n][..64] == data[..64] && data[..n][64..] == rest[..n - 64] && data[n..] == rest[n - 64..];
    }
  }

  lemma {:induction false} BlocksAbsorb(data: seq<Byte>)
    requires |data| % 64 == 0
    ensures Blocks(data) == Absorb(InitialHash(), data)
    decreases |data|
  {
    if data != [] {
      BlocksAbsorb(data[..|data| - 64]);
      AbsorbLast(InitialHash(), data);
    }
  }

  // Each word as four bytes, most significant first.
  function Digest(h: seq<Word>): (r: seq<Byte>)
    ensures |r| == 4 * |h|
  {
    if h == [] then [] else Digest(h[..|h| - 1]) + BigEndian(h[|h| - 1], 4)
  }

  lemma DigestEmpty()
    ensures Digest([]) == []
  {
  }

  lemma DigestStep(h: seq<Word>, i: nat)
    requires i < |h|
    ensures Digest(h[..i + 1]) == Digest(h[..i]) + BigEndian(h[i], 4)
  {
    assert h[..i + 1][..i] == h[..i];
  }

  function Sha256(msg: seq<Byte>): (r: seq<Byte>)
    requires |msg| < 0x2000_0000_0000_0000
    ensures |r| == 32
  {
    Digest(Blocks(Pad(msg)))
  }
}
