/** The one-block example of FIPS 180-4, followed word by word: the digest of "abc". */
module Sha256Example {
  import opened FileSystem
  import opened Sha256Spec

  const ABC: seq<Byte> := [0x61, 0x62, 0x63]

  // The padded message, a single block
  function Block(): (b: seq<Byte>)
    ensures |b| == 64
  {
    [0x61, 0x62, 0x63, 0x80] + Zeros(59) + [24]
  }

  lemma {:induction false} NoBytes(k: nat)
    ensures BigEndian(0, k) == Zeros(k)
  {
    if k > 0 { NoBytes(k - 1); }
  }

  lemma LengthBytes()
    ensures BigEndian(24, 8) == Zeros(7) + [24]
  {
    NoBytes(7);
    assert 24 / 256 == 0;
  }

  lemma PaddedAbc()
    ensures Pad(ABC) == Block()
  {
    LengthBytes();
    assert Zeros(52) + Zeros(7) == Zeros(59);
  }

  // ----- sums of words as bit strings -----

  function Num(x: Bits): Word {
    x as Word
  }

  lemma BigSigmas(x: Bits)
    ensures BigSigma0(Num(x)) == Num(BigSigma0Bits(x)) && BigSigma1(Num(x)) == Num(BigSigma1Bits(x))
  {
    hide BigSigma0Bits, BigSigma1Bits;
  }

  lemma SmallSigmas(x: Bits)
    ensures SmallSigma0(Num(x)) == Num(SmallSigma0Bits(x)) && SmallSigma1(Num(x)) == Num(SmallSigma1Bits(x))
  {
    hide SmallSigma0Bits, SmallSigma1Bits;
  }

  lemma Choices(x: Bits, y: Bits, z: Bits)
    ensures Ch(Num(x), Num(y), Num(z)) == Num(ChBits(x, y, z)) && Maj(Num(x), Num(y), Num(z)) == Num(MajBits(x, y, z))
  {
    hide ChBits, MajBits;
  }

  lemma WrapOnce(x: int, y: int)
    ensures (x % 0x1_0000_0000 + y) % 0x1_0000_0000 == (x + y) % 0x1_0000_0000
  {
  }

  // A sum of words is the sum of the numbers, wrapped once.
  lemma PlusSums(x: Word, y: Word, m: int, n: int)
    requires x == m % 0x1_0000_0000 && y == n % 0x1_0000_0000
    ensures Plus(x, y) == (m + n) % 0x1_0000_0000
  {
    WrapOnce(m, y);
    WrapOnce(n, m);
  }

  lemma FourSum(x: Word, y: Word, z: Word, w: Word)
    ensures Plus(Plus(Plus(x, y), z), w) == (x as int + y + z + w) % 0x1_0000_0000
  {
    hide Plus;
    PlusSums(x, y, x, y);
    PlusSums(Plus(x, y), z, x as int + y, z);
    PlusSums(Plus(Plus(x, y), z), w, x as int + y + z, w);
  }

  // ----- the message schedule -----

  lemma {:induction false} SchedulePrefix(block: seq<Byte>, t: nat, n: nat)
    requires |block| == 64 && t <= n
    ensures Schedule(block, n)[..t] == Schedule(block, t)
  {
    if t < n { SchedulePrefix(block, t, n - 1); }
  }

  // Section 6.2.2, step 1: the recurrence of the message schedule
  lemma ScheduleAt(block: seq<Byte>, t: nat)
    requires |block| == 64 && t < 64
    ensures var w := Schedule(block, 64);
            w[t] == if t < 16 then WordAt(block, t) else NextWord(w[t - 2], w[t - 7], w[t - 15], w[t - 16])
  {
    SchedulePrefix(block, t + 1, 64);
    SchedulePrefix(block, t, 64);
    var w := Schedule(block, 64);
    assert w[t] == w[..t + 1][t] && forall i :: 0 <= i < t ==> w[i] == w[..t][i];
  }

  // Word t of the schedule of the example
  ghost predicate WordIs(t: nat, w: Bits)
    requires t < 64
  {
    Schedule(Block(), 64)[t] == Num(w)
  }

  predicate Summed(w2: Bits, w7: Bits, w15: Bits, w16: Bits, w: Bits) {
    Num(w) == (Num(SmallSigma1Bits(w2)) as int + Num(w7) + Num(SmallSigma0Bits(w15)) + Num(w16)) % 0x1_0000_0000
  }

  lemma NextWordSummed(w2: Bits, w7: Bits, w15: Bits, w16: Bits, w: Bits)
    requires Summed(w2, w7, w15, w16, w)
    ensures NextWord(Num(w2), Num(w7), Num(w15), Num(w16)) == Num(w)
  {
    hide Plus, Num, SmallSigma0, SmallSigma1, SmallSigma0Bits, SmallSigma1Bits;
    SmallSigmas(w2);
    SmallSigmas(w15);
    FourSum(SmallSigma1(Num(w2)), Num(w7), SmallSigma0(Num(w15)), Num(w16));
  }

  lemma Next(t: nat, w2: Bits, w7: Bits, w15: Bits, w16: Bits, w: Bits)
    requires 16 <= t < 64 && WordIs(t - 2, w2) && WordIs(t - 7, w7) && WordIs(t - 15, w15) && WordIs(t - 16, w16)
    requires Summed(w2, w7, w15, w16, w)
    ensures WordIs(t, w)
  {
    hide Schedule, Summed, NextWord, Num;
    ScheduleAt(Block(), t);
    NextWordSummed(w2, w7, w15, w16, w);
  }

  // The first sixteen words are those of the block, of which all but two are zero.
  lemma BlockWord(t: nat, w: Bits)
    requires t < 16 && Num(w) == if t == 0 then 0x6162_6380 else if t == 15 then 0x18 else 0
    ensures WordIs(t, w)
  {
    hide Schedule, WordAt, Num;
    BlockBytes(t);
    ScheduleAt(Block(), t);
  }

  lemma BlockBytes(t: nat)
    requires t < 16
    ensures WordAt(Block(), t) == if t == 0 then 0x6162_6380 else if t == 15 then 0x18 else 0
  {
  }

  lemma Literals()
    ensures Num(0x6162_6380) == 0x6162_6380 && Num(0x18) == 0x18 && Num(0) == 0
  {
  }

  lemma Words0()
    ensures WordIs(0, 0x61626380) && WordIs(1, 0x00000000) && WordIs(2, 0x00000000) && WordIs(3, 0x00000000)
    ensures WordIs(4, 0x00000000) && WordIs(5, 0x00000000) && WordIs(6, 0x00000000) && WordIs(7, 0x00000000)
  {
    hide WordIs, WordAt, Num;
    Literals();
    BlockWord(0, 0x61626380);
    BlockWord(1, 0);
    BlockWord(2, 0);
    BlockWord(3, 0);
    BlockWord(4, 0);
    BlockWord(5, 0);
    BlockWord(6, 0);
    BlockWord(7, 0);
  }

  lemma Words8()
    ensures WordIs(8, 0x00000000) && WordIs(9, 0x00000000) && WordIs(10, 0x00000000) && WordIs(11, 0x00000000)
    ensures WordIs(12, 0x00000000) && WordIs(13, 0x00000000) && WordIs(14, 0x00000000) && WordIs(15, 0x00000018)
  {
    hide WordIs, WordAt, Num;
    Literals();
    BlockWord(8, 0);
    BlockWord(9, 0);
    BlockWord(10, 0);
    BlockWord(11, 0);
    BlockWord(12, 0);
    BlockWord(13, 0);
    BlockWord(14, 0);
    BlockWord(15, 0x00000018);
  }

  lemma Words16()
    ensures WordIs(16, 0x61626380) && WordIs(17, 0x000f0000) && WordIs(18, 0x7da86405) && WordIs(19, 0x600003c6)
  {
    hide WordIs;
    Words0();
    Words8();
    Next(16, 0x00000000, 0x00000000, 0x00000000, 0x61626380, 0x61626380);
    Next(17, 0x00000018, 0x00000000, 0x00000000, 0x00000000, 0x000f0000);
    Next(18, 0x61626380, 0x00000000, 0x00000000, 0x00000000, 0x7da86405);
    Next(19, 0x000f0000, 0x00000000, 0x00000000, 0x00000000, 0x600003c6);
  }

  lemma Words20()
    ensures WordIs(20, 0x3e9d7b78) && WordIs(21, 0x0183fc00) && WordIs(22, 0x12dcbfdb) && WordIs(23, 0xe2e2c38e)
  {
    hide WordIs;
    Words0();
    Words8();
    Words16();
    Next(20, 0x7da86405, 0x00000000, 0x00000000, 0x00000000, 0x3e9d7b78);
    Next(21, 0x600003c6, 0x00000000, 0x00000000, 0x00000000, 0x0183fc00);
    Next(22, 0x3e9d7b78, 0x00000018, 0x00000000, 0x00000000, 0x12dcbfdb);
    Next(23, 0x0183fc00, 0x61626380, 0x00000000, 0x00000000, 0xe2e2c38e);
  }

  lemma Words24()
    ensures WordIs(24, 0xc8215c1a) && WordIs(25, 0xb73679a2) && WordIs(26, 0xe5bc3909) && WordIs(27, 0x32663c5b)
    ensures WordIs(28, 0x9d209d67) && WordIs(29, 0xec8726cb) && WordIs(30, 0x702138a4) && WordIs(31, 0xd3b7973b)
  {
    hide WordIs;
    Words8();
    Words16();
    Words20();
    Next(24, 0x12dcbfdb, 0x000f0000, 0x00000000, 0x00000000, 0xc8215c1a);
    Next(25, 0xe2e2c38e, 0x7da86405, 0x00000000, 0x00000000, 0xb73679a2);
    Next(26, 0xc8215c1a, 0x600003c6, 0x00000000, 0x00000000, 0xe5bc3909);
    Next(27, 0xb73679a2, 0x3e9d7b78, 0x00000000, 0x00000000, 0x32663c5b);
    Next(28, 0xe5bc3909, 0x0183fc00, 0x00000000, 0x00000000, 0x9d209d67);
    Next(29, 0x32663c5b, 0x12dcbfdb, 0x00000000, 0x00000000, 0xec8726cb);
    Next(30, 0x9d209d67, 0xe2e2c38e, 0x00000018, 0x00000000, 0x702138a4);
    Next(31, 0xec8726cb, 0xc8215c1a, 0x61626380, 0x00000018, 0xd3b7973b);
  }

  lemma Words32()
    ensures WordIs(32, 0x93f5997f) && WordIs(33, 0x3b68ba73) && WordIs(34, 0xaff4ffc1) && WordIs(35, 0xf10a5c62)
    ensures WordIs(36, 0x0a8b3996) && WordIs(37, 0x72af830a) && WordIs(38, 0x9409e33e) && WordIs(39, 0x24641522)
  {
    hide WordIs;
    Words16();
    Words20();
    Words24();
    Next(32, 0x702138a4, 0xb73679a2, 0x000f0000, 0x61626380, 0x93f5997f);
    Next(33, 0xd3b7973b, 0xe5bc3909, 0x7da86405, 0x000f0000, 0x3b68ba73);
    Next(34, 0x93f5997f, 0x32663c5b, 0x600003c6, 0x7da86405, 0xaff4ffc1);
    Next(35, 0x3b68ba73, 0x9d209d67, 0x3e9d7b78, 0x600003c6, 0xf10a5c62);
    Next(36, 0xaff4ffc1, 0xec8726cb, 0x0183fc00, 0x3e9d7b78, 0x0a8b3996);
    Next(37, 0xf10a5c62, 0x702138a4, 0x12dcbfdb, 0x0183fc00, 0x72af830a);
    Next(38, 0x0a8b3996, 0xd3b7973b, 0xe2e2c38e, 0x12dcbfdb, 0x9409e33e);
    Next(39, 0x72af830a, 0x93f5997f, 0xc8215c1a, 0xe2e2c38e, 0x24641522);
  }

  lemma Words40()
    ensures WordIs(40, 0x9f47bf94) && WordIs(41, 0xf0a64f5a) && WordIs(42, 0x3e246a79) && WordIs(43, 0x27333ba3)
    ensures WordIs(44, 0x0c4763f2) && WordIs(45, 0x840abf27) && WordIs(46, 0x7a290d5d) && WordIs(47, 0x065c43da)
  {
    hide WordIs;
    Words24();
    Words32();
    Next(40, 0x9409e33e, 0x3b68ba73, 0xb73679a2, 0xc8215c1a, 0x9f47bf94);
    Next(41, 0x24641522, 0xaff4ffc1, 0xe5bc3909, 0xb73679a2, 0xf0a64f5a);
    Next(42, 0x9f47bf94, 0xf10a5c62, 0x32663c5b, 0xe5bc3909, 0x3e246a79);
    Next(43, 0xf0a64f5a, 0x0a8b3996, 0x9d209d67, 0x32663c5b, 0x27333ba3);
    Next(44, 0x3e246a79, 0x72af830a, 0xec8726cb, 0x9d209d67, 0x0c4763f2);
    Next(45, 0x27333ba3, 0x9409e33e, 0x702138a4, 0xec8726cb, 0x840abf27);
    Next(46, 0x0c4763f2, 0x24641522, 0xd3b7973b, 0x702138a4, 0x7a290d5d);
    Next(47, 0x840abf27, 0x9f47bf94, 0x93f5997f, 0xd3b7973b, 0x065c43da);
  }

  lemma Words48()
    ensures WordIs(48, 0xfb3e89cb) && WordIs(49, 0xcc7617db) && WordIs(50, 0xb9e66c34) && WordIs(51, 0xa9993667)
    ensures WordIs(52, 0x84badedd) && WordIs(53, 0xc21462bc) && WordIs(54, 0x1487472c) && WordIs(55, 0xb20f7a99)
  {
    hide WordIs;
    Words32();
    Words40();
    Next(48, 0x7a290d5d, 0xf0a64f5a, 0x3b68ba73, 0x93f5997f, 0xfb3e89cb);
    Next(49, 0x065c43da, 0x3e246a79, 0xaff4ffc1, 0x3b68ba73, 0xcc7617db);
    Next(50, 0xfb3e89cb, 0x27333ba3, 0xf10a5c62, 0xaff4ffc1, 0xb9e66c34);
    Next(51, 0xcc7617db, 0x0c4763f2, 0x0a8b3996, 0xf10a5c62, 0xa9993667);
    Next(52, 0xb9e66c34, 0x840abf27, 0x72af830a, 0x0a8b3996, 0x84badedd);
    Next(53, 0xa9993667, 0x7a290d5d, 0x9409e33e, 0x72af830a, 0xc21462bc);
    Next(54, 0x84badedd, 0x065c43da, 0x24641522, 0x9409e33e, 0x1487472c);
    Next(55, 0xc21462bc, 0xfb3e89cb, 0x9f47bf94, 0x24641522, 0xb20f7a99);
  }

  lemma Words56()
    ensures WordIs(56, 0xef57b9cd) && WordIs(57, 0xebe6b238) && WordIs(58, 0x9fe3095e) && WordIs(59, 0x78bc8d4b)
    ensures WordIs(60, 0xa43fcf15) && WordIs(61, 0x668b2ff8) && WordIs(62, 0xeeaba2cc) && WordIs(63, 0x12b1edeb)
  {
    hide WordIs;
    Words40();
    Words48();
    Next(56, 0x1487472c, 0xcc7617db, 0xf0a64f5a, 0x9f47bf94, 0xef57b9cd);
    Next(57, 0xb20f7a99, 0xb9e66c34, 0x3e246a79, 0xf0a64f5a, 0xebe6b238);
    Next(58, 0xef57b9cd, 0xa9993667, 0x27333ba3, 0x3e246a79, 0x9fe3095e);
    Next(59, 0xebe6b238, 0x84badedd, 0x0c4763f2, 0x27333ba3, 0x78bc8d4b);
    Next(60, 0x9fe3095e, 0xc21462bc, 0x840abf27, 0x0c4763f2, 0xa43fcf15);
    Next(61, 0x78bc8d4b, 0x1487472c, 0x7a290d5d, 0x840abf27, 0x668b2ff8);
    Next(62, 0xa43fcf15, 0xb20f7a99, 0x065c43da, 0x7a290d5d, 0xeeaba2cc);
    Next(63, 0x668b2ff8, 0xef57b9cd, 0xfb3e89cb, 0x065c43da, 0x12b1edeb);
  }

  // ----- the rounds -----

  function Vars(a: Bits, b: Bits, c: Bits, d: Bits, e: Bits, f: Bits, g: Bits, h: Bits): (v: seq<Word>)
    ensures |v| == 8
  {
    [Num(a), Num(b), Num(c), Num(d), Num(e), Num(f), Num(g), Num(h)]
  }

  // The working variables of the example after t rounds
  ghost predicate After(t: nat, a: Bits, b: Bits, c: Bits, d: Bits, e: Bits, f: Bits, g: Bits, h: Bits)
    requires t <= 64
  {
    Rounds(InitialHash(), Schedule(Block(), 64), t) == Vars(a, b, c, d, e, f, g, h)
  }

  function Sum1(e: Bits, f: Bits, g: Bits, h: Bits, k: Bits, w: Bits): int {
    Num(h) as int + Num(BigSigma1Bits(e)) + Num(ChBits(e, f, g)) + Num(k) + Num(w)
  }

  function Sum2(a: Bits, b: Bits, c: Bits): int {
    Num(BigSigma0Bits(a)) as int + Num(MajBits(a, b, c))
  }

  // The two words a round computes anew
  predicate Mixed(a: Bits, b: Bits, c: Bits, d: Bits, e: Bits, f: Bits, g: Bits, h: Bits, k: Bits, w: Bits, a': Bits, e': Bits) {
    && Num(a') == (Sum1(e, f, g, h, k, w) + Sum2(a, b, c)) % 0x1_0000_0000
    && Num(e') == (Num(d) + Sum1(e, f, g, h, k, w)) % 0x1_0000_0000
  }

  lemma T1Sum(e: Bits, f: Bits, g: Bits, h: Bits, k: Bits, w: Bits)
    ensures T1(Num(e), Num(f), Num(g), Num(h), Num(k), Num(w)) == Sum1(e, f, g, h, k, w) % 0x1_0000_0000
  {
    hide Plus, Num, Ch, Maj, BigSigma0, BigSigma1;
    BigSigmas(e);
    Choices(e, f, g);
    var x := Plus(Plus(Plus(Num(h), BigSigma1(Num(e))), Ch(Num(e), Num(f), Num(g))), Num(k));
    FourSum(Num(h), BigSigma1(Num(e)), Ch(Num(e), Num(f), Num(g)), Num(k));
    PlusSums(x, Num(w), Sum1(e, f, g, h, k, w) - Num(w), Num(w));
  }

  lemma T2Sum(a: Bits, b: Bits, c: Bits)
    ensures T2(Num(a), Num(b), Num(c)) == Sum2(a, b, c) % 0x1_0000_0000
  {
    hide Plus, Num, Ch, Maj, BigSigma0, BigSigma1;
    BigSigmas(a);
    Choices(a, b, c);
    PlusSums(BigSigma0(Num(a)), Maj(Num(a), Num(b), Num(c)), BigSigma0(Num(a)), Maj(Num(a), Num(b), Num(c)));
  }

  lemma RoundMixed(a: Bits, b: Bits, c: Bits, d: Bits, e: Bits, f: Bits, g: Bits, h: Bits, k: Bits, w: Bits, a': Bits, e': Bits)
    requires Mixed(a, b, c, d, e, f, g, h, k, w, a', e')
    ensures Round(Vars(a, b, c, d, e, f, g, h), Num(k), Num(w)) == Vars(a', a, b, c, e', e, f, g)
  {
    hide Plus, Sum1, Sum2, T1, T2, Num;
    T1Sum(e, f, g, h, k, w);
    T2Sum(a, b, c);
    var t1 := T1(Num(e), Num(f), Num(g), Num(h), Num(k), Num(w));
    PlusSums(t1, T2(Num(a), Num(b), Num(c)), Sum1(e, f, g, h, k, w), Sum2(a, b, c));
    PlusSums(Num(d), t1, Num(d), Sum1(e, f, g, h, k, w));
  }

  lemma Step(t: nat, a: Bits, b: Bits, c: Bits, d: Bits, e: Bits, f: Bits, g: Bits, h: Bits, k: Bits, w: Bits, a': Bits, e': Bits)
    requires t < 64 && After(t, a, b, c, d, e, f, g, h) && KWord(t) == Num(k) && WordIs(t, w)
    requires Mixed(a, b, c, d, e, f, g, h, k, w, a', e')
    ensures After(t + 1, a', a, b, c, e', e, f, g)
  {
    hide Round, Mixed, Schedule, KWord, Vars, Num;
    RoundMixed(a, b, c, d, e, f, g, h, k, w, a', e');
  }

  lemma Start()
    ensures After(0, 0x6a09e667, 0xbb67ae85, 0x3c6ef372, 0xa54ff53a, 0x510e527f, 0x9b05688c, 0x1f83d9ab, 0x5be0cd19)
  {
  }

  lemma Rounds4()
    ensures After(4, 0xd550f666, 0xc8c347a7, 0x5a6ad9ad, 0x5d6aebcd, 0x24e00850, 0xf92939eb, 0x78ce7989, 0xfa2a4622)
  {
    hide WordIs, After;
    Start();
    Words0();
    Step(0, 0x6a09e667, 0xbb67ae85, 0x3c6ef372, 0xa54ff53a, 0x510e527f, 0x9b05688c, 0x1f83d9ab, 0x5be0cd19,
         0x428a2f98, 0x61626380, 0x5d6aebcd, 0xfa2a4622);
    Step(1, 0x5d6aebcd, 0x6a09e667, 0xbb67ae85, 0x3c6ef372, 0xfa2a4622, 0x510e527f, 0x9b05688c, 0x1f83d9ab,
         0x71374491, 0x00000000, 0x5a6ad9ad, 0x78ce7989);
    Step(2, 0x5a6ad9ad, 0x5d6aebcd, 0x6a09e667, 0xbb67ae85, 0x78ce7989, 0xfa2a4622, 0x510e527f, 0x9b05688c,
         0xb5c0fbcf, 0x00000000, 0xc8c347a7, 0xf92939eb);
    Step(3, 0xc8c347a7, 0x5a6ad9ad, 0x5d6aebcd, 0x6a09e667, 0xf92939eb, 0x78ce7989, 0xfa2a4622, 0x510e527f,
         0xe9b5dba5, 0x00000000, 0xd550f666, 0x24e00850);
  }

  lemma Rounds8()
    ensures After(8, 0x85a07b5f, 0xe5030380, 0x2b4209f5, 0x04409a6a, 0x0c657a79, 0x9b27a401, 0x714260ad, 0x43ada245)
  {
    hide WordIs, After;
    Rounds4();
    Words0();
    Step(4, 0xd550f666, 0xc8c347a7, 0x5a6ad9ad, 0x5d6aebcd, 0x24e00850, 0xf92939eb, 0x78ce7989, 0xfa2a4622,
         0x3956c25b, 0x00000000, 0x04409a6a, 0x43ada245);
    Step(5, 0x04409a6a, 0xd550f666, 0xc8c347a7, 0x5a6ad9ad, 0x43ada245, 0x24e00850, 0xf92939eb, 0x78ce7989,
         0x59f111f1, 0x00000000, 0x2b4209f5, 0x714260ad);
    Step(6, 0x2b4209f5, 0x04409a6a, 0xd550f666, 0xc8c347a7, 0x714260ad, 0x43ada245, 0x24e00850, 0xf92939eb,
         0x923f82a4, 0x00000000, 0xe5030380, 0x9b27a401);
    Step(7, 0xe5030380, 0x2b4209f5, 0x04409a6a, 0xd550f666, 0x9b27a401, 0x714260ad, 0x43ada245, 0x24e00850,
         0xab1c5ed5, 0x00000000, 0x85a07b5f, 0x0c657a79);
  }

  lemma Rounds12()
    ensures After(12, 0xf71fc5a9, 0x4798a3f4, 0x8c87346b, 0x8e04ecb9, 0x816fd6e9, 0x436b23e8, 0x1cc92596, 0x32ca2d8c)
  {
    hide WordIs, After;
    Rounds8();
    Words8();
    Step(8, 0x85a07b5f, 0xe5030380, 0x2b4209f5, 0x04409a6a, 0x0c657a79, 0x9b27a401, 0x714260ad, 0x43ada245,
         0xd807aa98, 0x00000000, 0x8e04ecb9, 0x32ca2d8c);
    Step(9, 0x8e04ecb9, 0x85a07b5f, 0xe5030380, 0x2b4209f5, 0x32ca2d8c, 0x0c657a79, 0x9b27a401, 0x714260ad,
         0x12835b01, 0x00000000, 0x8c87346b, 0x1cc92596);
    Step(10, 0x8c87346b, 0x8e04ecb9, 0x85a07b5f, 0xe5030380, 0x1cc92596, 0x32ca2d8c, 0x0c657a79, 0x9b27a401,
         0x243185be, 0x00000000, 0x4798a3f4, 0x436b23e8);
    Step(11, 0x4798a3f4, 0x8c87346b, 0x8e04ecb9, 0x85a07b5f, 0x436b23e8, 0x1cc92596, 0x32ca2d8c, 0x0c657a79,
         0x550c7dc3, 0x00000000, 0xf71fc5a9, 0x816fd6e9);
  }

  lemma Rounds16()
    ensures After(16, 0xb0fa238e, 0xc0645fde, 0xd932eb16, 0x87912990, 0x07590dcd, 0x0b92f20c, 0x745a48de, 0x1e578218)
  {
    hide WordIs, After;
    Rounds12();
    Words8();
    Step(12, 0xf71fc5a9, 0x4798a3f4, 0x8c87346b, 0x8e04ecb9, 0x816fd6e9, 0x436b23e8, 0x1cc92596, 0x32ca2d8c,
         0x72be5d74, 0x00000000, 0x87912990, 0x1e578218);
    Step(13, 0x87912990, 0xf71fc5a9, 0x4798a3f4, 0x8c87346b, 0x1e578218, 0x816fd6e9, 0x436b23e8, 0x1cc92596,
         0x80deb1fe, 0x00000000, 0xd932eb16, 0x745a48de);
    Step(14, 0xd932eb16, 0x87912990, 0xf71fc5a9, 0x4798a3f4, 0x745a48de, 0x1e578218, 0x816fd6e9, 0x436b23e8,
         0x9bdc06a7, 0x00000000, 0xc0645fde, 0x0b92f20c);
    Step(15, 0xc0645fde, 0xd932eb16, 0x87912990, 0xf71fc5a9, 0x0b92f20c, 0x745a48de, 0x1e578218, 0x816fd6e9,
         0xc19bf174, 0x00000018, 0xb0fa238e, 0x07590dcd);
  }

  lemma Rounds20()
    ensures After(20, 0xe1f20c33, 0xfe777bbf, 0xc2fbd9d1, 0x21da9a9b, 0xb0638179, 0xcc899961, 0x846ee454, 0x8034229c)
  {
    hide WordIs, After;
    Rounds16();
    Words16();
    Step(16, 0xb0fa238e, 0xc0645fde, 0xd932eb16, 0x87912990, 0x07590dcd, 0x0b92f20c, 0x745a48de, 0x1e578218,
         0xe49b69c1, 0x61626380, 0x21da9a9b, 0x8034229c);
    Step(17, 0x21da9a9b, 0xb0fa238e, 0xc0645fde, 0xd932eb16, 0x8034229c, 0x07590dcd, 0x0b92f20c, 0x745a48de,
         0xefbe4786, 0x000f0000, 0xc2fbd9d1, 0x846ee454);
    Step(18, 0xc2fbd9d1, 0x21da9a9b, 0xb0fa238e, 0xc0645fde, 0x846ee454, 0x8034229c, 0x07590dcd, 0x0b92f20c,
         0x0fc19dc6, 0x7da86405, 0xfe777bbf, 0xcc899961);
    Step(19, 0xfe777bbf, 0xc2fbd9d1, 0x21da9a9b, 0xb0fa238e, 0xcc899961, 0x846ee454, 0x8034229c, 0x07590dcd,
         0x240ca1cc, 0x600003c6, 0xe1f20c33, 0xb0638179);
  }

  lemma Rounds24()
    ensures After(24, 0xc5d53d8d, 0xa7a3623f, 0xc2606d6d, 0x9dc68b63, 0xaa47c347, 0x49f5114a, 0xe1257970, 0x8ada8930)
  {
    hide WordIs, After;
    Rounds20();
    Words20();
    Step(20, 0xe1f20c33, 0xfe777bbf, 0xc2fbd9d1, 0x21da9a9b, 0xb0638179, 0xcc899961, 0x846ee454, 0x8034229c,
         0x2de92c6f, 0x3e9d7b78, 0x9dc68b63, 0x8ada8930);
    Step(21, 0x9dc68b63, 0xe1f20c33, 0xfe777bbf, 0xc2fbd9d1, 0x8ada8930, 0xb0638179, 0xcc899961, 0x846ee454,
         0x4a7484aa, 0x0183fc00, 0xc2606d6d, 0xe1257970);
    Step(22, 0xc2606d6d, 0x9dc68b63, 0xe1f20c33, 0xfe777bbf, 0xe1257970, 0x8ada8930, 0xb0638179, 0xcc899961,
         0x5cb0a9dc, 0x12dcbfdb, 0xa7a3623f, 0x49f5114a);
    Step(23, 0xa7a3623f, 0xc2606d6d, 0x9dc68b63, 0xe1f20c33, 0x49f5114a, 0xe1257970, 0x8ada8930, 0xb0638179,
         0x76f988da, 0xe2e2c38e, 0xc5d53d8d, 0xaa47c347);
  }

  lemma Rounds28()
    ensures After(28, 0x77d37528, 0xb62ec4bc, 0xcde8037d, 0x1c2c2838, 0xedffbff8, 0xc74c6516, 0x14383d8e, 0x2823ef91)
  {
    hide WordIs, After;
    Rounds24();
    Words24();
    Step(24, 0xc5d53d8d, 0xa7a3623f, 0xc2606d6d, 0x9dc68b63, 0xaa47c347, 0x49f5114a, 0xe1257970, 0x8ada8930,
         0x983e5152, 0xc8215c1a, 0x1c2c2838, 0x2823ef91);
    Step(25, 0x1c2c2838, 0xc5d53d8d, 0xa7a3623f, 0xc2606d6d, 0x2823ef91, 0xaa47c347, 0x49f5114a, 0xe1257970,
         0xa831c66d, 0xb73679a2, 0xcde8037d, 0x14383d8e);
    Step(26, 0xcde8037d, 0x1c2c2838, 0xc5d53d8d, 0xa7a3623f, 0x14383d8e, 0x2823ef91, 0xaa47c347, 0x49f5114a,
         0xb00327c8, 0xe5bc3909, 0xb62ec4bc, 0xc74c6516);
    Step(27, 0xb62ec4bc, 0xcde8037d, 0x1c2c2838, 0xc5d53d8d, 0xc74c6516, 0x14383d8e, 0x2823ef91, 0xaa47c347,
         0xbf597fc7, 0x32663c5b, 0x77d37528, 0xedffbff8);
  }

  lemma Rounds32()
    ensures After(32, 0x73b33bf5, 0xea992a22, 0xa0060b30, 0x363482c9, 0xba591112, 0x0109ab3a, 0xade79437, 0x6112a3b7)
  {
    hide WordIs, After;
    Rounds28();
    Words24();
    Step(28, 0x77d37528, 0xb62ec4bc, 0xcde8037d, 0x1c2c2838, 0xedffbff8, 0xc74c6516, 0x14383d8e, 0x2823ef91,
         0xc6e00bf3, 0x9d209d67, 0x363482c9, 0x6112a3b7);
    Step(29, 0x363482c9, 0x77d37528, 0xb62ec4bc, 0xcde8037d, 0x6112a3b7, 0xedffbff8, 0xc74c6516, 0x14383d8e,
         0xd5a79147, 0xec8726cb, 0xa0060b30, 0xade79437);
    Step(30, 0xa0060b30, 0x363482c9, 0x77d37528, 0xb62ec4bc, 0xade79437, 0x6112a3b7, 0xedffbff8, 0xc74c6516,
         0x06ca6351, 0x702138a4, 0xea992a22, 0x0109ab3a);
    Step(31, 0xea992a22, 0xa0060b30, 0x363482c9, 0x77d37528, 0x0109ab3a, 0xade79437, 0x6112a3b7, 0xedffbff8,
         0x14292967, 0xd3b7973b, 0x73b33bf5, 0xba591112);
  }

  lemma Rounds36()
    ensures After(36, 0x65a0cfe4, 0xa9a7738c, 0xfe604df5, 0x98e12507, 0xf4b002d6, 0x085f3833, 0x59249dd3, 0x9cd9f5f6)
  {
    hide WordIs, After;
    Rounds32();
    Words32();
    Step(32, 0x73b33bf5, 0xea992a22, 0xa0060b30, 0x363482c9, 0xba591112, 0x0109ab3a, 0xade79437, 0x6112a3b7,
         0x27b70a85, 0x93f5997f, 0x98e12507, 0x9cd9f5f6);
    Step(33, 0x98e12507, 0x73b33bf5, 0xea992a22, 0xa0060b30, 0x9cd9f5f6, 0xba591112, 0x0109ab3a, 0xade79437,
         0x2e1b2138, 0x3b68ba73, 0xfe604df5, 0x59249dd3);
    Step(34, 0xfe604df5, 0x98e12507, 0x73b33bf5, 0xea992a22, 0x59249dd3, 0x9cd9f5f6, 0xba591112, 0x0109ab3a,
         0x4d2c6dfc, 0xaff4ffc1, 0xa9a7738c, 0x085f3833);
    Step(35, 0xa9a7738c, 0xfe604df5, 0x98e12507, 0x73b33bf5, 0x085f3833, 0x59249dd3, 0x9cd9f5f6, 0xba591112,
         0x53380d13, 0xf10a5c62, 0x65a0cfe4, 0xf4b002d6);
  }

  lemma Rounds40()
    ensures After(40, 0x79ea687a, 0x6dc57a8a, 0x34df1604, 0x41a65cb1, 0x1efbc0a0, 0xf0781bc8, 0xa507a53d, 0x0772a26b)
  {
    hide WordIs, After;
    Rounds36();
    Words32();
    Step(36, 0x65a0cfe4, 0xa9a7738c, 0xfe604df5, 0x98e12507, 0xf4b002d6, 0x085f3833, 0x59249dd3, 0x9cd9f5f6,
         0x650a7354, 0x0a8b3996, 0x41a65cb1, 0x0772a26b);
    Step(37, 0x41a65cb1, 0x65a0cfe4, 0xa9a7738c, 0xfe604df5, 0x0772a26b, 0xf4b002d6, 0x085f3833, 0x59249dd3,
         0x766a0abb, 0x72af830a, 0x34df1604, 0xa507a53d);
    Step(38, 0x34df1604, 0x41a65cb1, 0x65a0cfe4, 0xa9a7738c, 0xa507a53d, 0x0772a26b, 0xf4b002d6, 0x085f3833,
         0x81c2c92e, 0x9409e33e, 0x6dc57a8a, 0xf0781bc8);
    Step(39, 0x6dc57a8a, 0x34df1604, 0x41a65cb1, 0x65a0cfe4, 0xf0781bc8, 0xa507a53d, 0x0772a26b, 0xf4b002d6,
         0x92722c85, 0x24641522, 0x79ea687a, 0x1efbc0a0);
  }

  lemma Rounds44()
    ensures After(44, 0x9d4baf93, 0x17aa0dfe, 0xdf46652f, 0xd6670766, 0xfda24c2e, 0xdecd4715, 0x838b2711, 0x26352d63)
  {
    hide WordIs, After;
    Rounds40();
    Words40();
    Step(40, 0x79ea687a, 0x6dc57a8a, 0x34df1604, 0x41a65cb1, 0x1efbc0a0, 0xf0781bc8, 0xa507a53d, 0x0772a26b,
         0xa2bfe8a1, 0x9f47bf94, 0xd6670766, 0x26352d63);
    Step(41, 0xd6670766, 0x79ea687a, 0x6dc57a8a, 0x34df1604, 0x26352d63, 0x1efbc0a0, 0xf0781bc8, 0xa507a53d,
         0xa81a664b, 0xf0a64f5a, 0xdf46652f, 0x838b2711);
    Step(42, 0xdf46652f, 0xd6670766, 0x79ea687a, 0x6dc57a8a, 0x838b2711, 0x26352d63, 0x1efbc0a0, 0xf0781bc8,
         0xc24b8b70, 0x3e246a79, 0x17aa0dfe, 0xdecd4715);
    Step(43, 0x17aa0dfe, 0xdf46652f, 0xd6670766, 0x79ea687a, 0xdecd4715, 0x838b2711, 0x26352d63, 0x1efbc0a0,
         0xc76c51a3, 0x27333ba3, 0x9d4baf93, 0xfda24c2e);
  }

  lemma Rounds48()
    ensures After(48, 0x4172328d, 0xa14c14b0, 0x72ab4b91, 0x26628815, 0xfecf0bc6, 0xd57b94a9, 0xb7755da1, 0xa80f11f0)
  {
    hide WordIs, After;
    Rounds44();
    Words40();
    Step(44, 0x9d4baf93, 0x17aa0dfe, 0xdf46652f, 0xd6670766, 0xfda24c2e, 0xdecd4715, 0x838b2711, 0x26352d63,
         0xd192e819, 0x0c4763f2, 0x26628815, 0xa80f11f0);
    Step(45, 0x26628815, 0x9d4baf93, 0x17aa0dfe, 0xdf46652f, 0xa80f11f0, 0xfda24c2e, 0xdecd4715, 0x838b2711,
         0xd6990624, 0x840abf27, 0x72ab4b91, 0xb7755da1);
    Step(46, 0x72ab4b91, 0x26628815, 0x9d4baf93, 0x17aa0dfe, 0xb7755da1, 0xa80f11f0, 0xfda24c2e, 0xdecd4715,
         0xf40e3585, 0x7a290d5d, 0xa14c14b0, 0xd57b94a9);
    Step(47, 0xa14c14b0, 0x72ab4b91, 0x26628815, 0x9d4baf93, 0xd57b94a9, 0xb7755da1, 0xa80f11f0, 0xfda24c2e,
         0x106aa070, 0x065c43da, 0x4172328d, 0xfecf0bc6);
  }

  lemma Rounds52()
    ensures After(52, 0x886e7a22, 0x7a0508a1, 0xf11bfaa8, 0x05757ceb, 0x49231c1e, 0x52f1ccf7, 0x6e5c390c, 0xbd714038)
  {
    hide WordIs, After;
    Rounds48();
    Words48();
    Step(48, 0x4172328d, 0xa14c14b0, 0x72ab4b91, 0x26628815, 0xfecf0bc6, 0xd57b94a9, 0xb7755da1, 0xa80f11f0,
         0x19a4c116, 0xfb3e89cb, 0x05757ceb, 0xbd714038);
    Step(49, 0x05757ceb, 0x4172328d, 0xa14c14b0, 0x72ab4b91, 0xbd714038, 0xfecf0bc6, 0xd57b94a9, 0xb7755da1,
         0x1e376c08, 0xcc7617db, 0xf11bfaa8, 0x6e5c390c);
    Step(50, 0xf11bfaa8, 0x05757ceb, 0x4172328d, 0xa14c14b0, 0x6e5c390c, 0xbd714038, 0xfecf0bc6, 0xd57b94a9,
         0x2748774c, 0xb9e66c34, 0x7a0508a1, 0x52f1ccf7);
    Step(51, 0x7a0508a1, 0xf11bfaa8, 0x05757ceb, 0x4172328d, 0x52f1ccf7, 0x6e5c390c, 0xbd714038, 0xfecf0bc6,
         0x34b0bcb5, 0xa9993667, 0x886e7a22, 0x49231c1e);
  }

  lemma Rounds56()
    ensures After(56, 0x38cc9913, 0x3ec45cdb, 0xf5702fdb, 0x101fd28f, 0x54cb266b, 0xe50e1b4f, 0x9f4787c3, 0x529e7d00)
  {
    hide WordIs, After;
    Rounds52();
    Words48();
    Step(52, 0x886e7a22, 0x7a0508a1, 0xf11bfaa8, 0x05757ceb, 0x49231c1e, 0x52f1ccf7, 0x6e5c390c, 0xbd714038,
         0x391c0cb3, 0x84badedd, 0x101fd28f, 0x529e7d00);
    Step(53, 0x101fd28f, 0x886e7a22, 0x7a0508a1, 0xf11bfaa8, 0x529e7d00, 0x49231c1e, 0x52f1ccf7, 0x6e5c390c,
         0x4ed8aa4a, 0xc21462bc, 0xf5702fdb, 0x9f4787c3);
    Step(54, 0xf5702fdb, 0x101fd28f, 0x886e7a22, 0x7a0508a1, 0x9f4787c3, 0x529e7d00, 0x49231c1e, 0x52f1ccf7,
         0x5b9cca4f, 0x1487472c, 0x3ec45cdb, 0xe50e1b4f);
    Step(55, 0x3ec45cdb, 0xf5702fdb, 0x101fd28f, 0x886e7a22, 0xe50e1b4f, 0x9f4787c3, 0x529e7d00, 0x49231c1e,
         0x682e6ff3, 0xb20f7a99, 0x38cc9913, 0x54cb266b);
  }

  lemma Rounds60()
    ensures After(60, 0xb6ae8fff, 0xffb70472, 0xc062d46f, 0xfcd1887b, 0xb21bad3d, 0x6d83bfc6, 0x7e44008e, 0x9b5e906c)
  {
    hide WordIs, After;
    Rounds56();
    Words56();
    Step(56, 0x38cc9913, 0x3ec45cdb, 0xf5702fdb, 0x101fd28f, 0x54cb266b, 0xe50e1b4f, 0x9f4787c3, 0x529e7d00,
         0x748f82ee, 0xef57b9cd, 0xfcd1887b, 0x9b5e906c);
    Step(57, 0xfcd1887b, 0x38cc9913, 0x3ec45cdb, 0xf5702fdb, 0x9b5e906c, 0x54cb266b, 0xe50e1b4f, 0x9f4787c3,
         0x78a5636f, 0xebe6b238, 0xc062d46f, 0x7e44008e);
    Step(58, 0xc062d46f, 0xfcd1887b, 0x38cc9913, 0x3ec45cdb, 0x7e44008e, 0x9b5e906c, 0x54cb266b, 0xe50e1b4f,
         0x84c87814, 0x9fe3095e, 0xffb70472, 0x6d83bfc6);
    Step(59, 0xffb70472, 0xc062d46f, 0xfcd1887b, 0x38cc9913, 0x6d83bfc6, 0x7e44008e, 0x9b5e906c, 0x54cb266b,
         0x8cc70208, 0x78bc8d4b, 0xb6ae8fff, 0xb21bad3d);
  }

  lemma Rounds64()
    ensures After(64, 0x506e3058, 0xd39a2165, 0x04d24d6c, 0xb85e2ce9, 0x5ef50f24, 0xfb121210, 0x948d25b6, 0x961f4894)
  {
    hide WordIs, After;
    Rounds60();
    Words56();
    Step(60, 0xb6ae8fff, 0xffb70472, 0xc062d46f, 0xfcd1887b, 0xb21bad3d, 0x6d83bfc6, 0x7e44008e, 0x9b5e906c,
         0x90befffa, 0xa43fcf15, 0xb85e2ce9, 0x961f4894);
    Step(61, 0xb85e2ce9, 0xb6ae8fff, 0xffb70472, 0xc062d46f, 0x961f4894, 0xb21bad3d, 0x6d83bfc6, 0x7e44008e,
         0xa4506ceb, 0x668b2ff8, 0x04d24d6c, 0x948d25b6);
    Step(62, 0x04d24d6c, 0xb85e2ce9, 0xb6ae8fff, 0xffb70472, 0x948d25b6, 0x961f4894, 0xb21bad3d, 0x6d83bfc6,
         0xbef9a3f7, 0xeeaba2cc, 0xd39a2165, 0xfb121210);
    Step(63, 0xd39a2165, 0x04d24d6c, 0xb85e2ce9, 0xb6ae8fff, 0xfb121210, 0x948d25b6, 0x961f4894, 0xb21bad3d,
         0xc67178f2, 0x12b1edeb, 0x506e3058, 0x5ef50f24);
  }

  // ----- the digest -----

  lemma HashOfAbc()
    ensures Blocks(Block()) == [0xba7816bf, 0x8f01cfea, 0x414140de, 0x5dae2223, 0xb00361a3, 0x96177a9c, 0xb410ff61, 0xf20015ad]
  {
    hide Schedule, Rounds, WordIs;
    Rounds64();
    Start();
    assert Block()[..0] == [] && Block()[0..] == Block();
  }

  lemma FourBytes(x: Word, b0: Word, b1: Word, b2: Word, b3: Word)
    requires b0 < 256 && b1 < 256 && b2 < 256 && b3 < 256
    requires x == b0 * 0x100_0000 + b1 * 0x1_0000 + b2 * 0x100 + b3
    ensures BigEndian(x, 4) == [b0 as Byte, b1 as Byte, b2 as Byte, b3 as Byte]
  {
    assert x / 256 == b0 * 0x1_0000 + b1 * 0x100 + b2 && x % 256 == b3;
    assert x / 256 / 256 == b0 * 0x100 + b1 && x / 256 % 256 == b2;
    assert x / 256 / 256 / 256 == b0 && x / 256 / 256 % 256 == b1;
    assert BigEndian(b0, 1) == [b0 as Byte];
    assert BigEndian(x / 256 / 256, 2) == [b0 as Byte, b1 as Byte];
    assert BigEndian(x / 256, 3) == [b0 as Byte, b1 as Byte, b2 as Byte];
  }

  lemma WordBytes0()
    ensures BigEndian(0xba7816bf, 4) == [0xba, 0x78, 0x16, 0xbf] && BigEndian(0x8f01cfea, 4) == [0x8f, 0x01, 0xcf, 0xea]
  {
    hide BigEndian;
    FourBytes(0xba7816bf, 0xba, 0x78, 0x16, 0xbf);
    FourBytes(0x8f01cfea, 0x8f, 0x01, 0xcf, 0xea);
  }

  lemma WordBytes2()
    ensures BigEndian(0x414140de, 4) == [0x41, 0x41, 0x40, 0xde] && BigEndian(0x5dae2223, 4) == [0x5d, 0xae, 0x22, 0x23]
  {
    hide BigEndian;
    FourBytes(0x414140de, 0x41, 0x41, 0x40, 0xde);
    FourBytes(0x5dae2223, 0x5d, 0xae, 0x22, 0x23);
  }

  lemma WordBytes4()
    ensures BigEndian(0xb00361a3, 4) == [0xb0, 0x03, 0x61, 0xa3] && BigEndian(0x96177a9c, 4) == [0x96, 0x17, 0x7a, 0x9c]
  {
    hide BigEndian;
    FourBytes(0xb00361a3, 0xb0, 0x03, 0x61, 0xa3);
    FourBytes(0x96177a9c, 0x96, 0x17, 0x7a, 0x9c);
  }

  lemma WordBytes6()
    ensures BigEndian(0xb410ff61, 4) == [0xb4, 0x10, 0xff, 0x61] && BigEndian(0xf20015ad, 4) == [0xf2, 0x00, 0x15, 0xad]
  {
    hide BigEndian;
    FourBytes(0xb410ff61, 0xb4, 0x10, 0xff, 0x61);
    FourBytes(0xf20015ad, 0xf2, 0x00, 0x15, 0xad);
  }

  lemma DigestOfEight(h: seq<Word>)
    requires |h| == 8
    ensures Digest(h) == BigEndian(h[0], 4) + BigEndian(h[1], 4) + BigEndian(h[2], 4) + BigEndian(h[3], 4)
                         + BigEndian(h[4], 4) + BigEndian(h[5], 4) + BigEndian(h[6], 4) + BigEndian(h[7], 4)
  {
    hide BigEndian;
    assert h[..0] == [] && h[..8] == h;
    forall i | 0 <= i < 8 ensures Digest(h[..i + 1]) == Digest(h[..i]) + BigEndian(h[i], 4) {
      DigestStep(h, i);
    }
  }

  // The digest the standard gives for the message "abc"
  lemma Abc()
    ensures Sha256(ABC) ==
            [ 0xba, 0x78, 0x16, 0xbf, 0x8f, 0x01, 0xcf, 0xea,
              0x41, 0x41, 0x40, 0xde, 0x5d, 0xae, 0x22, 0x23,
              0xb0, 0x03, 0x61, 0xa3, 0x96, 0x17, 0x7a, 0x9c,
              0xb4, 0x10, 0xff, 0x61, 0xf2, 0x00, 0x15, 0xad ]
  {
    hide Pad, Blocks, BigEndian, Digest;
    PaddedAbc();
    HashOfAbc();
    DigestOfEight(Blocks(Block()));
    WordBytes0();
    WordBytes2();
    WordBytes4();
    WordBytes6();
  }
}
