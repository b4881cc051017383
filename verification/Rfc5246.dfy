/**
 What RFC 5246 and RFC 4492 define, written from their text: the pseudo-random function, the
 MAC and the cipher suites as the other end of a connection knows them.
 */
module Rfc5246 {
  import opened Bytes
  import opened Wrappers
  import opened Primitives

  // ----- section 5: the pseudo-random function -----

  /** n terms of P_hash, the first one keyed on the A that follows a. */
  function Terms(c: Crypto, secret: seq<byte>, a: seq<byte>, seed: seq<byte>, n: nat): (s: seq<byte>)
    ensures |s| == 32 * n
    decreases n
  {
    if n == 0 then []
    else
      var next := c.hmacSha256(secret, a);
      c.hmacSha256(secret, next + seed) + Terms(c, secret, next, seed, n - 1)
  }

  /** PRF(secret, label, seed) = P_SHA256(secret, label + seed), where A(0) is label + seed. */
  function Prf(c: Crypto, secret: seq<byte>, tag: string, seed: seq<byte>, outLen: nat): (s: seq<byte>)
    ensures |s| == outLen
  {
    Terms(c, secret, Ascii(tag) + seed, Ascii(tag) + seed, (outLen + 31) / 32)[..outLen]
  }

  // ----- section 6.2.3.1: the MAC -----

  /** seq_num in bytes 0 to 7, type in 8, version 3.3 in 9 and 10, length in 11 and 12. */
  function MacHeader(seqNum: uint64, contentType: byte, length: nat): (h: seq<byte>)
    ensures |h| == 13
  {
    [seqNum / 0x100_0000_0000_0000 % 0x100, seqNum / 0x1_0000_0000_0000 % 0x100,
     seqNum / 0x100_0000_0000 % 0x100, seqNum / 0x1_0000_0000 % 0x100,
     seqNum / 0x100_0000 % 0x100, seqNum / 0x1_0000 % 0x100, seqNum / 0x100 % 0x100, seqNum % 0x100,
     contentType, 3, 3, length / 0x100 % 0x100, length % 0x100]
  }

  function RecordMac(c: Crypto, macKey: seq<byte>, seqNum: uint64, contentType: byte, content: seq<byte>): Sha1Digest {
    c.hmacSha1(macKey, MacHeader(seqNum, contentType, |content|) + content)
  }

  // ----- appendix C, and section 6 of RFC 4492: the CBC suites with SHA-1 and RSA certificates -----

  /** Bytes of an encryption key and of a MAC key, and whether the key exchange is ephemeral. */
  datatype Suite = Suite(keyLen: nat, macLen: nat, ephemeral: bool)

  function SuiteOf(id: uint16): Option<Suite> {
    match id
    case 0x002f => Some(Suite(16, 20, false))
    case 0x0035 => Some(Suite(32, 20, false))
    case 0xc013 => Some(Suite(16, 20, true))
    case 0xc014 => Some(Suite(32, 20, true))
    case _ => None
  }
}
