/** The TLS 1.2 pseudo-random function and the key block cut from it (RFC 5246, sections 5, 6.3, 8.1). */
module Prf {
  import opened Bytes
  import opened Wrappers
  import opened Primitives
  import Rfc5246

  // ----- P_hash as section 5 of RFC 5246 defines it -----

  function A(c: Crypto, secret: seq<byte>, seed: seq<byte>, i: nat): seq<byte> {
    if i == 0 then seed else c.hmacSha256(secret, A(c, secret, seed, i - 1))
  }

  /** The first n chunks of P_hash: HMAC(secret, A(1) + seed) + ... + HMAC(secret, A(n) + seed). */
  function Chunks(c: Crypto, secret: seq<byte>, seed: seq<byte>, n: nat): (s: seq<byte>)
    ensures |s| == 32 * n
  {
    if n == 0 then []
    else Chunks(c, secret, seed, n - 1) + c.hmacSha256(secret, A(c, secret, seed, n) + seed)
  }

  /** P_hash cut to outLen bytes; ceil(outLen / 32) chunks are enough. */
  function PHash(c: Crypto, secret: seq<byte>, seed: seq<byte>, outLen: nat): (s: seq<byte>)
    ensures |s| == outLen
  {
    Chunks(c, secret, seed, (outLen + 31) / 32)[..outLen]
  }

  /** Byte i of n chunks lies in chunk i/32 + 1, whatever n is. */
  lemma {:induction false} ChunksByte(c: Crypto, secret: seq<byte>, seed: seq<byte>, n: nat, i: nat)
    requires i < 32 * n
    ensures Chunks(c, secret, seed, n)[i] == c.hmacSha256(secret, A(c, secret, seed, i / 32 + 1) + seed)[i % 32]
  {
    if i < 32 * (n - 1) {
      ChunksByte(c, secret, seed, n - 1, i);
    } else {
      assert i / 32 + 1 == n;
    }
  }

  lemma PHashByte(c: Crypto, secret: seq<byte>, seed: seq<byte>, outLen: nat, i: nat)
    requires i < outLen
    ensures PHash(c, secret, seed, outLen)[i] ==
            c.hmacSha256(secret, A(c, secret, seed, i / 32 + 1) + seed)[i % 32]
  {
    ChunksByte(c, secret, seed, (outLen + 31) / 32, i);
  }

  lemma PHashPrefix(c: Crypto, secret: seq<byte>, seed: seq<byte>, shorter: nat, longer: nat)
    requires shorter <= longer
    ensures PHash(c, secret, seed, shorter) == PHash(c, secret, seed, longer)[..shorter]
  {
    forall i | 0 <= i < shorter
      ensures PHash(c, secret, seed, shorter)[i] == PHash(c, secret, seed, longer)[i]
    {
      PHashByte(c, secret, seed, shorter, i);
      PHashByte(c, secret, seed, longer, i);
    }
  }

  /** The client's loop; rounds counts its iterations. */
  method PHashSha256(c: Crypto, secret: seq<byte>, seed: seq<byte>, outLen: nat)
    returns (result: seq<byte>, rounds: nat)
    ensures result == PHash(c, secret, seed, outLen)
    ensures rounds == (outLen + 31) / 32
  {
    var out: seq<byte> := [];
    var a := seed;
    rounds := 0;
    while |out| < outLen
      invariant a == A(c, secret, seed, rounds)
      invariant out == Chunks(c, secret, seed, rounds)
      invariant rounds > 0 ==> 32 * (rounds - 1) < outLen
      decreases outLen - |out|
    {
      a := c.hmacSha256(secret, a);
      out := out + c.hmacSha256(secret, a + seed);
      rounds := rounds + 1;
    }
    assert rounds == (outLen + 31) / 32;
    result := out[..outLen];
  }

  /** PRF(secret, tag, seed) = P_SHA256(secret, tag + seed). */
  function Prf12(c: Crypto, secret: seq<byte>, tag: seq<byte>, seed: seq<byte>, outLen: nat): (s: seq<byte>)
    ensures |s| == outLen
  {
    PHash(c, secret, tag + seed, outLen)
  }

  method ComputePrf12(c: Crypto, secret: seq<byte>, tag: seq<byte>, seed: seq<byte>, outLen: nat)
    returns (result: seq<byte>)
    ensures result == Prf12(c, secret, tag, seed, outLen)
  {
    var rounds;
    result, rounds := PHashSha256(c, secret, tag + seed, outLen);
  }

  /** The chunks after the first i are the terms that start at A(i). */
  lemma {:induction false} ChunksFrom(c: Crypto, secret: seq<byte>, seed: seq<byte>, i: nat, n: nat)
    ensures Chunks(c, secret, seed, i + n) ==
            Chunks(c, secret, seed, i) + Rfc5246.Terms(c, secret, A(c, secret, seed, i), seed, n)
    decreases n
  {
    if n > 0 {
      ChunksFrom(c, secret, seed, i + 1, n - 1);
    }
  }

  /** The client's function is the RFC's. */
  lemma PrfIsRfc(c: Crypto, secret: seq<byte>, tag: string, seed: seq<byte>, outLen: nat)
    ensures Prf12(c, secret, Ascii(tag), seed, outLen) == Rfc5246.Prf(c, secret, tag, seed, outLen)
  {
    var full := Ascii(tag) + seed;
    ChunksFrom(c, secret, full, 0, (outLen + 31) / 32);
    assert Chunks(c, secret, full, 0) == [];
  }

  // ----- labels, byte for byte -----

  /** "master secret" */
  const MASTER_SECRET: seq<byte> := Ascii("master secret")
  /** "key expansion" */
  const KEY_EXPANSION: seq<byte> := Ascii("key expansion")
  /** "client finished" */
  const CLIENT_FINISHED: seq<byte> := Ascii("client finished")

  // ----- suites and keys -----

  datatype CipherParams = CipherParams(keyLen: nat, macLen: nat, ivLen: nat, ecdhe: bool)

  const ECDHE_RSA_AES128_CBC_SHA: uint16 := 0xc013
  const ECDHE_RSA_AES256_CBC_SHA: uint16 := 0xc014
  const RSA_AES128_CBC_SHA: uint16 := 0x002f
  const RSA_AES256_CBC_SHA: uint16 := 0x0035

  const CBC_SUITES: seq<uint16> :=
    [ECDHE_RSA_AES128_CBC_SHA, ECDHE_RSA_AES256_CBC_SHA, RSA_AES128_CBC_SHA, RSA_AES256_CBC_SHA]

  predicate Supported(p: CipherParams) {
    p.keyLen in {16, 32} && p.macLen == 20 && p.ivLen == 16
  }

  function ParamsForSuite(suite: uint16): (p: Option<CipherParams>)
    ensures p.Some? ==> Supported(p.value)
  {
    if suite == ECDHE_RSA_AES128_CBC_SHA then Some(CipherParams(16, 20, 16, true))
    else if suite == ECDHE_RSA_AES256_CBC_SHA then Some(CipherParams(32, 20, 16, true))
    else if suite == RSA_AES128_CBC_SHA then Some(CipherParams(16, 20, 16, false))
    else if suite == RSA_AES256_CBC_SHA then Some(CipherParams(32, 20, 16, false))
    else None
  }

  /** The client supports exactly those suites, with those lengths. */
  lemma ParamsAreRfc(suite: uint16)
    ensures match Rfc5246.SuiteOf(suite)
            case Some(r) => ParamsForSuite(suite) == Some(CipherParams(r.keyLen, r.macLen, 16, r.ephemeral))
            case None => ParamsForSuite(suite) == None
  {
  }

  datatype Keys = Keys(clientMac: seq<byte>, serverMac: seq<byte>, clientKey: seq<byte>, serverKey: seq<byte>)

  function MasterSecret(c: Crypto, premaster: seq<byte>, clientRandom: seq<byte>, serverRandom: seq<byte>): (s: seq<byte>)
    ensures |s| == 48
  {
    Prf12(c, premaster, MASTER_SECRET, clientRandom + serverRandom, 48)
  }

  function KeyBlock(c: Crypto, master: seq<byte>, clientRandom: seq<byte>, serverRandom: seq<byte>, n: nat): (s: seq<byte>)
    ensures |s| == n
  {
    Prf12(c, master, KEY_EXPANSION, serverRandom + clientRandom, n)
  }

  /** Section 6.3 of RFC 5246: the block is client MAC, server MAC, client key, server key, in that order. */
  ghost predicate PartitionsKeyBlock(k: Keys, block: seq<byte>, macLen: nat, keyLen: nat) {
    && |k.clientMac| == |k.serverMac| == macLen
    && |k.clientKey| == |k.serverKey| == keyLen
    && block == k.clientMac + k.serverMac + k.clientKey + k.serverKey
  }

  function CutKeys(block: seq<byte>, macLen: nat, keyLen: nat): (k: Keys)
    requires |block| == 2 * macLen + 2 * keyLen
    ensures PartitionsKeyBlock(k, block, macLen, keyLen)
  {
    Keys(block[..macLen], block[macLen..2 * macLen],
         block[2 * macLen..2 * macLen + keyLen], block[2 * macLen + keyLen..])
  }

  /** The partition leaves no choice: two peers that cut the same block hold the same four keys. */
  lemma PartitionUnique(k: Keys, l: Keys, block: seq<byte>, macLen: nat, keyLen: nat)
    requires PartitionsKeyBlock(k, block, macLen, keyLen) && PartitionsKeyBlock(l, block, macLen, keyLen)
    ensures k == l
  {
    PartitionIsCut(k, block, macLen, keyLen);
    PartitionIsCut(l, block, macLen, keyLen);
  }

  lemma PartitionIsCut(k: Keys, block: seq<byte>, macLen: nat, keyLen: nat)
    requires PartitionsKeyBlock(k, block, macLen, keyLen)
    ensures |block| == 2 * macLen + 2 * keyLen && k == CutKeys(block, macLen, keyLen)
  {
    assert block[..macLen] == k.clientMac;
    assert block[macLen..2 * macLen] == k.serverMac;
    assert block[2 * macLen..2 * macLen + keyLen] == k.clientKey;
    assert block[2 * macLen + keyLen..] == k.serverKey;
  }

  /** The client's slicing, with its running offset. */
  method SliceKeyBlock(block: seq<byte>, macLen: nat, keyLen: nat) returns (k: Keys)
    requires |block| == 2 * macLen + 2 * keyLen
    ensures k == CutKeys(block, macLen, keyLen)
    ensures |k.clientMac| == |k.serverMac| == macLen && |k.clientKey| == |k.serverKey| == keyLen
    ensures block == k.clientMac + k.serverMac + k.clientKey + k.serverKey
  {
    var off := 0;
    var clientMac := block[off..off + macLen];
    off := off + macLen;
    var serverMac := block[off..off + macLen];
    off := off + macLen;
    var clientKey := block[off..off + keyLen];
    off := off + keyLen;
    var serverKey := block[off..off + keyLen];
    off := off + keyLen;
    assert off == |block|;
    k := Keys(clientMac, serverMac, clientKey, serverKey);
  }
}
