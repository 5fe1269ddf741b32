/** HMAC-SHA-256 in one work buffer (u_hmac_sha256.c), against section 2 of RFC 2104. */
module Hmac {
  import opened FileSystem
  import opened Sha256Spec
  import opened Sha256Impl

  const BLOCK: nat := 64    // SHA256_BLOCK_SIZE, the B of RFC 2104
  const HASH: nat := 32     // U_SHA256_HASH_SIZE, the L of RFC 2104

  // The key as a string of exactly one block.
  function KeyBlock(key: seq<Byte>): (k: seq<Byte>)
    requires |key| < 0x1_0000_0000
    ensures |k| == BLOCK
  {
    var k := if |key| > BLOCK then Sha256(key) else key;
    k + Zeros(BLOCK - |k|)
  }

  function Xor(k: seq<Byte>, pad: Byte): (r: seq<Byte>)
    ensures |r| == |k|
  {
    seq(|k|, i requires 0 <= i < |k| => k[i] ^ pad)
  }

  // H(K xor opad, H(K xor ipad, text))
  function HmacSha256(key: seq<Byte>, text: seq<Byte>): (r: seq<Byte>)
    requires |key| < 0x1_0000_0000 && |text| + 192 < 0x1_0000_0000
    ensures |r| == HASH
  {
    var k := KeyBlock(key);
    Sha256(Xor(k, 0x5c) + Sha256(Xor(k, 0x36) + text))
  }

  // Section 2 of RFC 2104 byte by byte: B is 64, ipad is 0x36 and opad is 0x5c.
  lemma HmacOfBytes(key: seq<Byte>, text: seq<Byte>, k: seq<Byte>, inner: seq<Byte>, outer: seq<Byte>)
    requires |key| < 0x1_0000_0000 && |text| + 192 < 0x1_0000_0000 && |k| == |inner| == |outer| == 64
    requires if |key| <= 64 then k[..|key|] == key && forall i :: |key| <= i < 64 ==> k[i] == 0
             else k[..32] == Sha256(key) && forall i :: 32 <= i < 64 ==> k[i] == 0
    requires forall i :: 0 <= i < 64 ==> inner[i] == k[i] ^ 0x36 && outer[i] == k[i] ^ 0x5c
    ensures HmacSha256(key, text) == Sha256(outer + Sha256(inner + text))
  {
    hide Sha256;
    assert k == KeyBlock(key);
    assert inner == Xor(k, 0x36) && outer == Xor(k, 0x5c);
  }

  method CopyInto(src: seq<Byte>, buf: array<Byte>, at: nat)
    requires at + |src| <= buf.Length
    modifies buf
    ensures buf[..] == old(buf[..at]) + src + old(buf[at + |src|..])
  {
    for i := 0 to |src|
      invariant forall j :: 0 <= j < buf.Length ==> buf[j] == if at <= j < at + i then src[j - at] else old(buf[j])
    {
      buf[at + i] := src[i];
    }
  }

  // Step (1): the key, or its hash, followed by zeros, in the first block of the buffer.
  method PrepareKey(key: seq<Byte>, wrk: array<Byte>) returns (ok: bool)
    requires |key| < 0x1_0000_0000 && wrk.Length >= BLOCK
    modifies wrk
    ensures ok && wrk[..BLOCK] == KeyBlock(key)
  {
    hide Sha256;
    var i := |key|;
    ok := true;
    if |key| > BLOCK {
      ok := USha256(key, wrk, 0);
      i := HASH;
      assert wrk[..i] == Sha256(key);
    } else {
      CopyInto(key, wrk, 0);
      assert wrk[..i] == key;
    }
    FillZeros(wrk, i, BLOCK);
  }

  // Steps (2) and (5): the first block xored with a pad, in the second block.
  method XorKey(wrk: array<Byte>, pad: Byte)
    requires wrk.Length >= 2 * BLOCK
    modifies wrk
    ensures wrk[..BLOCK] == old(wrk[..BLOCK]) && wrk[BLOCK..2 * BLOCK] == Xor(old(wrk[..BLOCK]), pad)
    ensures wrk[2 * BLOCK..] == old(wrk[2 * BLOCK..])
  {
    for i := 0 to BLOCK
      invariant forall j :: 0 <= j < wrk.Length ==>
                  wrk[j] == if BLOCK <= j < BLOCK + i then old(wrk[j - BLOCK]) ^ pad else old(wrk[j])
    {
      wrk[BLOCK + i] := wrk[i] ^ pad;
    }
  }

  // Steps (2) to (4): the inner hash, put behind the text.
  method InnerHash(ghost k: seq<Byte>, msg: seq<Byte>, wrk: array<Byte>)
    requires |k| == BLOCK && |msg| + 192 < 0x1_0000_0000 && wrk.Length >= 192 + |msg| && wrk[..BLOCK] == k
    modifies wrk
    ensures wrk[..BLOCK] == k
    ensures var h1 := 2 * BLOCK + HASH + |msg|; wrk[h1..h1 + HASH] == Sha256(Xor(k, 0x36) + msg)
  {
    hide Sha256, Xor;
    XorKey(wrk, 0x36);
    CopyInto(msg, wrk, 2 * BLOCK);
    assert wrk[..BLOCK] == k;
    assert wrk[BLOCK..2 * BLOCK + |msg|] == Xor(k, 0x36) + msg;
    var h1 := 2 * BLOCK + HASH + |msg|;
    var hashed := USha256(wrk[BLOCK..2 * BLOCK + |msg|], wrk, h1);
    assert wrk[..BLOCK] == k;
  }

  // Steps (5) to (7): the outer hash of the inner one, which is at h1.
  method OuterHash(ghost k: seq<Byte>, ghost inner: seq<Byte>, h1: nat, wrk: array<Byte>, result: array<Byte>) returns (ok: bool)
    requires 2 * BLOCK + HASH <= h1 && h1 + HASH <= wrk.Length && wrk[h1..h1 + HASH] == inner
    requires |k| == BLOCK && wrk[..BLOCK] == k
    requires result.Length == HASH && result != wrk
    modifies wrk, result
    ensures ok && result[..] == Sha256(Xor(k, 0x5c) + inner)
  {
    hide Sha256, Xor;
    XorKey(wrk, 0x5c);
    assert wrk[h1..h1 + HASH] == inner;
    CopyInto(wrk[h1..h1 + HASH], wrk, 2 * BLOCK);
    assert wrk[BLOCK..2 * BLOCK + HASH] == Xor(k, 0x5c) + inner;
    ok := USha256(wrk[BLOCK..2 * BLOCK + HASH], result, 0);
    assert result[..] == result[0..HASH];
  }

  // Where the inner hash ends, the last byte the layout uses.
  function LayoutEnd(msgSize: nat): nat {
    (2 * BLOCK + HASH + msgSize) + HASH
  }

  // The check of 128 bytes beyond the message lets exactly 64 sizes pass that the layout does not fit in,
  // such as 192 bytes for a message of 64.
  lemma CheckTooWeak(msgSize: nat, wrkSize: nat)
    ensures LayoutEnd(msgSize) == 192 + msgSize
    ensures 2 * BLOCK + msgSize <= wrkSize < LayoutEnd(msgSize) <==> 0 <= wrkSize - (128 + msgSize) < 64
    ensures 2 * BLOCK + 64 <= 192 < LayoutEnd(64)
  {
  }

  // U_HmacSha256. `wrkSize` is what the caller claims; the layout below needs 192 bytes more than the
  // message although the check asks for 128 only. The regions of wrk are
  //   [0, 64) key block, [64, 128) padded key, [128, 128 + |msg|) text, then 32 spare bytes, then the inner hash.
  method UHmacSha256(key: seq<Byte>, msg: seq<Byte>, wrk: array<Byte>, wrkSize: nat, result: array<Byte>)
    returns (ok: bool)
    requires |key| < 0x1_0000_0000 && |msg| + 192 < 0x1_0000_0000
    requires wrkSize < 2 * BLOCK + |msg| || wrk.Length >= LayoutEnd(|msg|)
    requires result.Length == HASH && result != wrk
    modifies wrk, result
    ensures ok == (wrkSize >= 2 * BLOCK + |msg|)
    ensures ok ==> result[..] == HmacSha256(key, msg)
    ensures !ok ==> result[..] == old(result[..])
  {
    hide Sha256, KeyBlock, Xor;
    ok := false;
    if wrkSize < 2 * BLOCK + |msg| {
      return;
    }
    var prepared := PrepareKey(key, wrk);
    ghost var k := KeyBlock(key);
    if !prepared {
      return;
    }
    InnerHash(k, msg, wrk);
    ok := OuterHash(k, Sha256(Xor(k, 0x36) + msg), 2 * BLOCK + HASH + |msg|, wrk, result);
  }
}
