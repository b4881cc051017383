/**
 The library code the client calls and never sees: HMAC, SHA-256, the AES block function, ECDH,
 RSA encryption and certificate parsing. Only their result lengths are fixed here.
 */
module Primitives {
  import opened Bytes
  import opened Wrappers

  type Block = s: seq<byte> | |s| == 16 witness Fill(0, 16)
  type Sha1Digest = s: seq<byte> | |s| == 20 witness Fill(0, 20)
  type Random32 = s: seq<byte> | |s| == 32 witness Fill(0, 32)
  type Random46 = s: seq<byte> | |s| == 46 witness Fill(0, 46)
  type Sha256Digest = s: seq<byte> | |s| == 32 witness Fill(0, 32)

  datatype RsaPublicKey = RsaPublicKey(n: nat, e: nat)

  /** What a parsed certificate can carry: any positive modulus. */
  type RsaKey = k: RsaPublicKey | k.n > 0 witness RsaPublicKey(1, 1)

  datatype Crypto = Crypto(
    hmacSha1: (seq<byte>, seq<byte>) -> Sha1Digest,
    hmacSha256: (seq<byte>, seq<byte>) -> Sha256Digest,
    sha256: seq<byte> -> Sha256Digest,
    aesEncrypt: (seq<byte>, Block) -> Block,
    aesDecrypt: (seq<byte>, Block) -> Block,
    // a key pair drawn on a curve: its public point, and its shared secret with a peer's point
    ecdhPublic: (uint16, seq<byte>) -> Option<seq<byte>>,
    ecdhShared: (uint16, seq<byte>, seq<byte>) -> Option<seq<byte>>,
    rsaSeal: (RsaKey, seq<byte>, seq<byte>) -> Option<seq<byte>>,
    leafKey: seq<byte> -> Option<RsaKey>)

  /** The one law assumed of AES: decryption inverts encryption under the same key. */
  ghost predicate AesInverts(c: Crypto) {
    forall key: seq<byte>, b: Block :: c.aesDecrypt(key, c.aesEncrypt(key, b)) == b
  }

  // ----- cipher block chaining -----

  function XorBlock(a: Block, b: Block): Block {
    seq(16, i requires 0 <= i < 16 => Xor(a[i], b[i]))
  }

  lemma XorBlockInvolution(a: Block, b: Block)
    ensures XorBlock(XorBlock(a, b), b) == a
  {
    forall i | 0 <= i < 16 ensures XorBlock(XorBlock(a, b), b)[i] == a[i] {
      XorInvolution(a[i], b[i]);
    }
  }

  /** CBC encryption, where iv is the block before plain. */
  function CbcEncrypt(c: Crypto, key: seq<byte>, iv: Block, plain: seq<byte>): (ct: seq<byte>)
    requires |plain| % 16 == 0
    ensures |ct| == |plain|
    decreases |plain|
  {
    if plain == [] then []
    else
      var block := c.aesEncrypt(key, XorBlock(plain[..16], iv));
      block + CbcEncrypt(c, key, block, plain[16..])
  }

  function CbcDecrypt(c: Crypto, key: seq<byte>, iv: Block, ct: seq<byte>): (plain: seq<byte>)
    requires |ct| % 16 == 0
    ensures |plain| == |ct|
    decreases |ct|
  {
    if ct == [] then []
    else XorBlock(c.aesDecrypt(key, ct[..16]), iv) + CbcDecrypt(c, key, ct[..16], ct[16..])
  }

  lemma {:induction false} CbcRoundTrip(c: Crypto, key: seq<byte>, iv: Block, plain: seq<byte>)
    requires AesInverts(c) && |plain| % 16 == 0
    ensures CbcDecrypt(c, key, iv, CbcEncrypt(c, key, iv, plain)) == plain
    decreases |plain|
  {
    if plain != [] {
      var block := c.aesEncrypt(key, XorBlock(plain[..16], iv));
      var ct := CbcEncrypt(c, key, iv, plain);
      assert ct[..16] == block && ct[16..] == CbcEncrypt(c, key, block, plain[16..]);
      XorBlockInvolution(plain[..16], iv);
      CbcRoundTrip(c, key, block, plain[16..]);
      assert plain == plain[..16] + plain[16..];
    }
  }

  /** The blocks of a prefix decrypt to a prefix. */
  lemma {:induction false} CbcPrefix(c: Crypto, key: seq<byte>, iv: Block, ct: seq<byte>, n: nat)
    requires |ct| % 16 == 0 && n % 16 == 0 && n <= |ct|
    ensures CbcDecrypt(c, key, iv, ct[..n]) == CbcDecrypt(c, key, iv, ct)[..n]
    decreases n
  {
    if n > 0 {
      CbcPrefix(c, key, ct[..16], ct[16..], n - 16);
      assert ct[..n][..16] == ct[..16] && ct[..n][16..] == ct[16..][..n - 16];
    }
  }

  /** Block i is the encryption of plaintext block i combined with the ciphertext block before it, the IV for the first. */
  lemma {:induction false} CbcBlocks(c: Crypto, key: seq<byte>, iv: Block, plain: seq<byte>, i: nat)
    requires |plain| % 16 == 0 && 16 * i + 16 <= |plain|
    ensures var ct := CbcEncrypt(c, key, iv, plain);
            var before := if i == 0 then iv else ct[16 * i - 16..16 * i];
            ct[16 * i..16 * i + 16] == c.aesEncrypt(key, XorBlock(plain[16 * i..16 * i + 16], before))
    decreases i
  {
    hide XorBlock;
    var block: Block := c.aesEncrypt(key, XorBlock(plain[..16], iv));
    var rest := CbcEncrypt(c, key, block, plain[16..]);
    CbcFirst(c, key, iv, plain);
    hide CbcEncrypt;
    if i == 0 {
      assert (block + rest)[..16] == block;
    } else {
      CbcBlocks(c, key, block, plain[16..], i - 1);
      Shifted(block, rest, i);
      assert plain[16..][16 * (i - 1)..16 * (i - 1) + 16] == plain[16 * i..16 * i + 16];
    }
  }

  lemma CbcFirst(c: Crypto, key: seq<byte>, iv: Block, plain: seq<byte>)
    requires |plain| % 16 == 0 && |plain| >= 16
    ensures var block: Block := c.aesEncrypt(key, XorBlock(plain[..16], iv));
            CbcEncrypt(c, key, iv, plain) == block + CbcEncrypt(c, key, block, plain[16..])
  {
  }

  lemma Shifted(block: Block, rest: seq<byte>, i: nat)
    requires i > 0 && 16 * i <= |rest|
    ensures (block + rest)[16 * i..16 * i + 16] == rest[16 * (i - 1)..16 * (i - 1) + 16]
    ensures (block + rest)[16 * i - 16..16 * i] == if i == 1 then block else rest[16 * (i - 1) - 16..16 * (i - 1)]
  {
  }

  /** Each byte of a combined block is the exclusive or, bit by bit. */
  lemma XorBlockBits(a: Block, b: Block, i: nat, j: nat)
    requires i < 16 && j < 8
    ensures Pow(2, j) > 0 && XorBlock(a, b)[i] / Pow(2, j) % 2 == (a[i] / Pow(2, j) + b[i] / Pow(2, j)) % 2
  {
    XorBitsAt(a[i], b[i], 8, j);
  }
}
