/** The single-function SHA-256 of lonesha256.h: block at a time, padding inside a 64-byte buffer. */
module Sha256Impl {
  import opened FileSystem
  import opened Sha256Spec

  // The choice and majority functions as the RND macro rewrites them.
  lemma ChoiceRewritten(e: Bits, f: Bits, g: Bits)
    ensures g ^ (e & (f ^ g)) == ChBits(e, f, g)
  {
  }

  lemma MajorityRewritten(a: Bits, b: Bits, c: Bits)
    ensures ((a | b) & c) | (a & b) == MajBits(a, b, c)
  {
  }

  // The two temporaries of the RND macro
  method Temporaries(a: Word, b: Word, c: Word, e: Word, f: Word, g: Word, h: Word, k: Word, w: Word)
    returns (t0: Word, t1: Word)
    ensures t0 == T1(e, f, g, h, k, w) && t1 == T2(a, b, c)
  {
    var a', b', c' := a as Bits, b as Bits, c as Bits;
    var e', f', g' := e as Bits, f as Bits, g as Bits;
    ChoiceRewritten(e', f', g');
    MajorityRewritten(a', b', c');
    hide Plus, BigSigma0, BigSigma1, ChBits, MajBits;
    t0 := Plus(Plus(Plus(Plus(h, BigSigma1(e)), (g' ^ (e' & (f' ^ g'))) as Word), k), w);
    t1 := Plus(BigSigma0(a), (((a' | b') & c') | (a' & b')) as Word);
  }

  // The rotation of the working variables after RND
  method Rotate(S: array<Word>)
    requires S.Length == 8
    modifies S
    ensures forall i :: 0 <= i < 8 ==> S[i] == old(S[if i == 0 then 7 else i - 1])
  {
    var t := S[7];
    S[7] := S[6];
    S[6] := S[5];
    S[5] := S[4];
    S[4] := S[3];
    S[3] := S[2];
    S[2] := S[1];
    S[1] := S[0];
    S[0] := t;
  }

  // RND and the rotation
  method RoundInPlace(S: array<Word>, k: Word, w: Word)
    requires S.Length == 8
    modifies S
    ensures S[..] == Round(old(S[..]), k, w)
  {
    hide Plus, T1, T2;
    var t0, t1 := Temporaries(S[0], S[1], S[2], S[4], S[5], S[6], S[7], k, w);
    S[3] := Plus(S[3], t0);
    S[7] := Plus(t0, t1);
    Rotate(S);
  }

  // The message schedule of SHA256_COMPRESS
  method Expand(block: seq<Byte>) returns (W: array<Word>)
    requires |block| == 64
    ensures fresh(W) && W[..] == Schedule(block, 64)
  {
    hide Plus, SmallSigma0, SmallSigma1, WordAt;
    W := new Word[64];
    for i := 0 to 16
      invariant W[..i] == Schedule(block, i)
    {
      W[i] := WordAt(block, i);
      assert W[..i + 1] == W[..i] + [W[i]];
    }
    for i := 16 to 64
      invariant W[..i] == Schedule(block, i)
    {
      W[i] := Plus(Plus(Plus(SmallSigma1(W[i - 2]), W[i - 7]), SmallSigma0(W[i - 15])), W[i - 16]);
      assert W[..i + 1] == W[..i] + [W[i]];
    }
    assert W[..64] == W[..];
  }

  // SHA256_COMPRESS
  method CompressInto(state: array<Word>, block: seq<Byte>)
    requires state.Length == 8 && |block| == 64
    modifies state
    ensures state[..] == Compress(old(state[..]), block)
  {
    hide Plus, KWord, Round, Schedule;
    ghost var h := state[..];
    var S := new Word[8](i requires 0 <= i < 8 reads state => state[i]);
    assert S[..] == h;
    var W := Expand(block);
    ghost var w := W[..];
    for i := 0 to 64
      invariant S[..] == Rounds(h, w, i) && state[..] == h && W[..] == w
    {
      RoundInPlace(S, KWord(i), W[i]);
    }
    ghost var v := S[..];
    for i := 0 to 8
      invariant S[..] == v && v == Rounds(h, w, 64)
      invariant forall j :: 0 <= j < 8 ==> state[j] == if j < i then Plus(h[j], v[j]) else h[j]
    {
      state[i] := Plus(state[i], S[i]);
    }
    assert state[..] == Compress(h, block);
  }

  lemma BlocksStep(data: seq<Byte>, block: seq<Byte>)
    requires |data| % 64 == 0 && |block| == 64
    ensures |data + block| % 64 == 0 && Blocks(data + block) == Compress(Blocks(data), block)
  {
    assert (data + block)[..|data + block| - 64] == data;
    assert (data + block)[|data + block| - 64..] == block;
  }

  lemma Regroup(a: seq<Byte>, b: seq<Byte>, c: seq<Byte>, d: seq<Byte>, e: seq<Byte>)
    ensures (a + b) + c + d + e == a + ((b + c) + d + e)
    ensures (a + b) + c + d == a + ((b + c) + d)
  {
  }

  lemma Split(a: seq<Byte>, b: seq<Byte>, c: seq<Byte>, d: seq<Byte>)
    ensures a + (b + c) + d == (a + b) + (c + d)
  {
  }

  lemma ZerosAppend(m: nat, n: nat)
    ensures Zeros(m + n) == Zeros(m) + Zeros(n)
  {
  }

  lemma RestLength(n: nat, whole: nat)
    requires whole <= n && whole % 64 == 0 && n - whole < 64
    ensures n % 64 == n - whole
  {
  }

  // Padding as the code does it: `head` is what follows the last whole block, with the byte 0x80.
  lemma PadInOneBlock(msg: seq<Byte>, whole: nat, head: seq<Byte>)
    requires whole <= |msg| < 0x2000_0000_0000_0000 && whole % 64 == 0 && |msg| - whole <= 55
    requires head == msg[whole..] + [0x80]
    ensures Pad(msg) == msg[..whole] + (head + Zeros(56 - |head|) + BigEndian(8 * |msg|, 8))
  {
    RestLength(|msg|, whole);
    assert msg == msg[..whole] + msg[whole..];
    Regroup(msg[..whole], msg[whole..], [0x80], Zeros(56 - |head|), BigEndian(8 * |msg|, 8));
  }

  lemma PadInTwoBlocks(msg: seq<Byte>, whole: nat, head: seq<Byte>)
    requires whole <= |msg| < 0x2000_0000_0000_0000 && whole % 64 == 0 && 55 < |msg| - whole < 64
    requires head == msg[whole..] + [0x80]
    ensures Pad(msg) == msg[..whole] + (head + Zeros(64 - |head|)) + (Zeros(56) + BigEndian(8 * |msg|, 8))
  {
    RestLength(|msg|, whole);
    hide BigEndian, Zeros;
    var rest, length := msg[whole..], BigEndian(8 * |msg|, 8);
    assert msg == msg[..whole] + rest;
    var z := 64 - |head|;
    ZerosAppend(z, 56);
    Regroup(msg[..whole], rest, [0x80], Zeros(z), []);
    Split(msg[..whole] + rest + [0x80], Zeros(z), Zeros(56), length);
  }

  // STORE32H and STORE64H: k bytes of x at p, most significant first
  method Store(x: nat, k: nat, buf: array<Byte>, p: nat)
    requires p + k <= buf.Length
    modifies buf
    ensures forall i :: 0 <= i < buf.Length ==>
              buf[i] == if p <= i < p + k then BigEndian(x, k)[i - p] else old(buf[i])
  {
    for j := 0 to k
      invariant forall i :: 0 <= i < buf.Length ==>
                  buf[i] == if p <= i < p + j then BigEndian(x, k)[i - p] else old(buf[i])
    {
      BigEndianAt(x, k, j);
      buf[p + j] := (ShiftBytes(x, k - 1 - j) % 256) as Byte;
    }
  }

  method FillZeros(buf: array<Byte>, from: nat, to: nat)
    requires from <= to <= buf.Length
    modifies buf
    ensures buf[..] == old(buf[..from]) + Zeros(to - from) + old(buf[to..])
  {
    var len := from;
    while len < to
      invariant from <= len <= to
      invariant buf[..] == old(buf[..from]) + Zeros(len - from) + old(buf[len..])
    {
      buf[len] := 0;
      len := len + 1;
    }
  }

  // The end of lonesha256: pad up to 56 bytes, store the length and compress.
  method LastBlock(state: array<Word>, buf: array<Byte>, len: nat, bits: nat, ghost done: seq<Byte>)
    requires state.Length == 8 && buf.Length == 64 && len <= 56 && |done| % 64 == 0 && state[..] == Blocks(done)
    modifies state, buf
    ensures var last := (if len == 0 then [] else old(buf[..len])) + Zeros(56 - len) + BigEndian(bits, 8);
            |done + last| % 64 == 0 && state[..] == Blocks(done + last)
  {
    hide Blocks, Compress, BigEndian, Zeros;
    ghost var start := buf[..len];
    FillZeros(buf, len, 56);
    assert buf[..56] == start + Zeros(56 - len);
    Store(bits, 8, buf, 56);
    assert buf[..] == buf[..56] + buf[56..];
    assert buf[56..] == BigEndian(bits, 8);
    ghost var last := start + Zeros(56 - len) + BigEndian(bits, 8);
    assert buf[..] == last;
    CompressInto(state, buf[..]);
    BlocksStep(done, last);
  }

  // A block that the padding fills up without room for the length.
  method FullBlock(state: array<Word>, buf: array<Byte>, len: nat, ghost done: seq<Byte>)
    requires state.Length == 8 && buf.Length == 64 && len <= 64 && |done| % 64 == 0 && state[..] == Blocks(done)
    modifies state, buf
    ensures var full := old(buf[..len]) + Zeros(64 - len);
            |done + full| % 64 == 0 && state[..] == Blocks(done + full)
  {
    hide Blocks, Compress, Zeros;
    ghost var full := buf[..len] + Zeros(64 - len);
    FillZeros(buf, len, 64);
    assert buf[..] == full;
    CompressInto(state, buf[..]);
    BlocksStep(done, full);
  }

  // lonesha256 from the memcpy on: `whole` bytes have been hashed into state.
  method Finish(state: array<Word>, msg: seq<Byte>, whole: nat, bits: nat)
    requires state.Length == 8 && whole <= |msg| < 0x2000_0000_0000_0000 && whole % 64 == 0 && |msg| - whole < 64
    requires state[..] == Blocks(msg[..whole]) && bits == 8 * |msg|
    modifies state
    ensures state[..] == Blocks(Pad(msg))
  {
    hide Blocks, Pad, BigEndian;
    ghost var done := msg[..whole];
    var buf := new Byte[64](i => if 0 <= i < |msg| - whole then msg[whole + i] else 0);
    var len := |msg| - whole;
    buf[len] := 0x80;
    len := len + 1;
    ghost var head := buf[..len];
    assert head == msg[whole..] + [0x80];
    if len > 56 {
      PadInTwoBlocks(msg, whole, head);
      FullBlock(state, buf, len, done);
      LastBlock(state, buf, 0, bits, done + (head + Zeros(64 - |head|)));
      assert [] + Zeros(56) + BigEndian(bits, 8) == Zeros(56) + BigEndian(bits, 8);
    } else {
      PadInOneBlock(msg, whole, head);
      LastBlock(state, buf, len, bits, done);
    }
  }

  // The output loop of lonesha256
  method StoreDigest(state: array<Word>, out: array<Byte>, at: nat)
    requires state.Length == 8 && at + 32 <= out.Length
    modifies out
    ensures out[..] == old(out[..at]) + Digest(state[..]) + old(out[at + 32..])
  {
    hide BigEndian, Digest;
    ghost var hash := state[..];
    DigestEmpty();
    assert hash[..0] == [];
    for i := 0 to 8
      invariant state[..] == hash
      invariant out[..at] == old(out[..at]) && out[at + 32..] == old(out[at + 32..])
      invariant out[at..at + 4 * i] == Digest(hash[..i])
    {
      ghost var written := out[at..at + 4 * i];
      Store(state[i], 4, out, at + 4 * i);
      DigestStep(hash, i);
      assert out[at..at + 4 * (i + 1)] == written + BigEndian(hash[i], 4);
    }
    assert hash[..8] == hash;
    assert out[..] == out[..at] + out[at..at + 32] + out[at + 32..];
  }

  // lonesha256: the digest of `msg` is written at out[at..]. The input is read before the output is written.
  method LoneSha256(out: array<Byte>, at: nat, msg: seq<Byte>)
    requires at + 32 <= out.Length && |msg| < 0x2000_0000_0000_0000
    modifies out
    ensures out[..] == old(out[..at]) + Sha256(msg) + old(out[at + 32..])
  {
    hide Pad, Compress, Digest;
    var length := 0;   // sha256_length, 64 bits
    var h := InitialHash();
    var state := new Word[8](i requires 0 <= i < 8 => h[i]);
    var pos, len := 0, |msg|;
    assert state[..] == h && msg[..0] == [];
    while len >= 64
      invariant 0 <= pos <= |msg| && len == |msg| - pos && pos % 64 == 0 && length == 8 * pos
      invariant state[..] == Blocks(msg[..pos]) && out[..] == old(out[..])
    {
      CompressInto(state, msg[pos..pos + 64]);
      BlocksStep(msg[..pos], msg[pos..pos + 64]);
      assert msg[..pos] + msg[pos..pos + 64] == msg[..pos + 64];
      length := (length + 64 * 8) % 0x1_0000_0000_0000_0000;
      pos, len := pos + 64, len - 64;
    }
    length := (length + len * 8) % 0x1_0000_0000_0000_0000;
    assert length == 8 * |msg|;
    Finish(state, msg, pos, length);
    StoreDigest(state, out, at);
  }

  // U_Sha256 over libSha256LoneHash. Empty messages are refused.
  method USha256(msg: seq<Byte>, out: array<Byte>, at: nat) returns (ok: bool)
    requires at + 32 <= out.Length && |msg| < 0x1_0000_0000
    modifies out
    ensures ok == (msg != [])
    ensures out[..] == if ok then old(out[..at]) + Sha256(msg) + old(out[at + 32..]) else old(out[..])
  {
    ok := |msg| != 0;
    if ok {
      LoneSha256(out, at, msg);
    }
  }
}
