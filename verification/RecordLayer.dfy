/** The TLS 1.2 CBC record layer: what the client builds, and what a receiver makes of it. */
module RecordLayer {
  import opened Bytes
  import opened Wrappers
  import opened Network
  import opened Primitives
  import opened Prf
  import Rfc5246

  // ----- what is protected -----

  /** Section 6.2.3.1 of RFC 5246: seq_num, type, version, length, fragment. */
  function MacInput(seqNum: uint64, contentType: byte, content: seq<byte>): seq<byte> {
    BigEndian(seqNum, 8) + [contentType] + U16(TLS12) + U16(|content|) + content
  }

  /** The 13 bytes before the content are the RFC's header, position by position. */
  lemma MacInputIsRfc(seqNum: uint64, contentType: byte, content: seq<byte>)
    ensures MacInput(seqNum, contentType, content) == Rfc5246.MacHeader(seqNum, contentType, |content|) + content
  {
    EightBytes(seqNum);
  }

  lemma EightBytes(n: uint64)
    ensures BigEndian(n, 8) == Rfc5246.MacHeader(n, 0, 0)[..8]
  {
    hide BigEndian;
    var high := n / 0x1_0000_0000;
    FourMore(n, 4);
    FourMore(high, 0);
    NoBytes(high / 0x1_0000_0000);
    Halves(n);
  }

  lemma NoBytes(n: nat)
    ensures BigEndian(n, 0) == []
  {
  }

  lemma FourMore(n: nat, k: nat)
    ensures BigEndian(n, k + 4) ==
            BigEndian(n / 0x1_0000_0000, k) + [n / 0x100_0000 % 0x100, n / 0x1_0000 % 0x100, n / 0x100 % 0x100, n % 0x100]
  {
    hide BigEndian;
    OneMore(n, k + 3);
    OneMore(n / 0x100, k + 2);
    OneMore(n / 0x1_0000, k + 1);
    OneMore(n / 0x100_0000, k);
    Shifts(n);
  }

  lemma OneMore(n: nat, k: nat)
    ensures BigEndian(n, k + 1) == BigEndian(n / 0x100, k) + [n % 0x100]
  {
  }

  lemma Shifts(n: nat)
    ensures n / 0x100 / 0x100 == n / 0x1_0000 && n / 0x1_0000 / 0x100 == n / 0x100_0000
    ensures n / 0x100_0000 / 0x100 == n / 0x1_0000_0000
  {
  }

  lemma Halves(n: uint64)
    ensures var high := n / 0x1_0000_0000;
            && high / 0x100_0000 % 0x100 == n / 0x100_0000_0000_0000 % 0x100
            && high / 0x1_0000 % 0x100 == n / 0x1_0000_0000_0000 % 0x100
            && high / 0x100 % 0x100 == n / 0x100_0000_0000 % 0x100
  {
  }

  /** A MAC input names one sequence number, one type and one content. */
  lemma MacInputInjective(s: uint64, t: byte, content: seq<byte>, s': uint64, t': byte, content': seq<byte>)
    requires MacInput(s, t, content) == MacInput(s', t', content')
    ensures s == s' && t == t' && content == content'
  {
    var x, x' := MacInput(s, t, content), MacInput(s', t', content');
    assert x[..8] == BigEndian(s, 8) && x'[..8] == BigEndian(s', 8);
    assert x[8] == t && x'[8] == t';
    assert x[13..] == content && x'[13..] == content';
    assert Pow(0x100, 8) == 0x1_0000_0000_0000_0000 by {
      assert Pow(0x100, 4) == 0x1_0000_0000;
    }
    BigEndianInjective(s, s', 8);
  }

  /** The MAC with its last byte inverted. */
  function Flip(mac: Sha1Digest): Sha1Digest {
    mac[19 := Xor(mac[19], 0xff)]
  }

  lemma FlipIsComplement(mac: Sha1Digest)
    ensures Flip(mac) == mac[..19] + [255 - mac[19]]
  {
    XorOnes(mac[19]);
    hide Xor;
  }

  /** The pad value of a well-formed record over n bytes of content and MAC. */
  function PadValue(n: nat): byte {
    15 - n % 16
  }

  /** Content, MAC and padding: the well-formed pad, or padOverride + 1 bytes of value padOverride. */
  function Crafted(mac: Sha1Digest, content: seq<byte>, forceBadMac: bool, padOverride: int): seq<byte> {
    var body := content + if forceBadMac then Flip(mac) else mac;
    body + if padOverride >= 0 then Fill(padOverride % 0x100, padOverride + 1)
           else Fill(PadValue(|body|), PadValue(|body|) + 1)
  }

  /** Zero bytes up to the next block boundary. */
  function ZeroFilled(plain: seq<byte>): (r: seq<byte>)
    ensures |r| % 16 == 0 && |plain| <= |r| < |plain| + 16
  {
    plain + Fill(0, (16 - |plain| % 16) % 16)
  }

  function Fragment(c: Crypto, key: seq<byte>, iv: Block, plain: seq<byte>): seq<byte> {
    iv + CbcEncrypt(c, key, iv, ZeroFilled(plain))
  }

  /** The plaintext of a crafted record before alignment. */
  function Plain(c: Crypto, macKey: seq<byte>, seqNum: uint64, contentType: byte, content: seq<byte>,
                 forceBadMac: bool, padOverride: int): seq<byte> {
    Crafted(c.hmacSha1(macKey, MacInput(seqNum, contentType, content)), content, forceBadMac, padOverride)
  }

  /** The record the client writes. */
  function Seal(c: Crypto, keys: Keys, seqNum: uint64, contentType: byte, content: seq<byte>,
                forceBadMac: bool, padOverride: int, iv: Block): seq<byte> {
    WrapRecord(contentType, Fragment(c, keys.clientKey, iv,
      Plain(c, keys.clientMac, seqNum, contentType, content, forceBadMac, padOverride)))
  }

  /** The keys as the other end uses them to write. */
  function Reversed(keys: Keys): Keys {
    Keys(keys.serverMac, keys.clientMac, keys.serverKey, keys.clientKey)
  }

  // ----- what a receiver does: section 6.2.3.2 of RFC 5246 -----

  datatype Decoded = Accepted(content: seq<byte>) | BadPadding | BadMac | Malformed

  /** All padLen + 1 padding bytes hold padLen, and a MAC fits before them. */
  predicate PaddingOk(pt: seq<byte>) {
    && |pt| > 0
    && var padLen := pt[|pt| - 1];
    && padLen + 1 + 20 <= |pt|
    && forall i :: |pt| - padLen - 1 <= i < |pt| ==> pt[i] == padLen
  }

  function CheckPlaintext(c: Crypto, macKey: seq<byte>, seqNum: uint64, contentType: byte, pt: seq<byte>): Decoded {
    if !PaddingOk(pt) then BadPadding
    else
      var end := |pt| - pt[|pt| - 1] - 1;
      var content := pt[..end - 20];
      if Rfc5246.RecordMac(c, macKey, seqNum, contentType, content) == pt[end - 20..end] then Accepted(content)
      else BadMac
  }

  /** The limit of 2^14 + 2048 bytes in section 6.2.3 of RFC 5246 is not enforced: longer records are decoded. */
  function Receive(c: Crypto, key: seq<byte>, macKey: seq<byte>, seqNum: uint64, contentType: byte,
                   fragment: seq<byte>): Decoded {
    if |fragment| < 32 || |fragment| % 16 != 0 then Malformed
    else CheckPlaintext(c, macKey, seqNum, contentType, CbcDecrypt(c, key, fragment[..16], fragment[16..]))
  }

  /** A server receiving a client record: its length field says where the fragment ends. */
  function ServerReceives(c: Crypto, keys: Keys, seqNum: uint64, record: seq<byte>): Decoded {
    if |record| < 5 || |record| < 5 + GetU16(record, 3) || record[1] != 3 || record[2] != 3 then Malformed
    else Receive(c, keys.clientKey, keys.clientMac, seqNum, record[0], record[5..5 + GetU16(record, 3)])
  }

  // ----- from the wire to the plaintext -----

  lemma OpenFragment(c: Crypto, key: seq<byte>, iv: Block, plain: seq<byte>)
    requires AesInverts(c)
    ensures var fragment := Fragment(c, key, iv, plain);
            && |fragment| == 16 + |ZeroFilled(plain)|
            && CbcDecrypt(c, key, fragment[..16], fragment[16..]) == ZeroFilled(plain)
  {
    var filled := ZeroFilled(plain);
    var fragment := Fragment(c, key, iv, plain);
    assert fragment[..16] == iv && fragment[16..] == CbcEncrypt(c, key, iv, filled);
    CbcRoundTrip(c, key, iv, filled);
  }

  lemma ReceiveFragment(c: Crypto, key: seq<byte>, macKey: seq<byte>, seqNum: uint64, contentType: byte,
                        iv: Block, plain: seq<byte>)
    requires AesInverts(c) && plain != []
    ensures Receive(c, key, macKey, seqNum, contentType, Fragment(c, key, iv, plain)) ==
            CheckPlaintext(c, macKey, seqNum, contentType, ZeroFilled(plain))
  {
    hide CheckPlaintext, CbcDecrypt, Fragment;
    var fragment, filled := Fragment(c, key, iv, plain), ZeroFilled(plain);
    assert |fragment| == 16 + |filled| && |filled| >= 16
           && CbcDecrypt(c, key, fragment[..16], fragment[16..]) == filled by {
      OpenFragment(c, key, iv, plain);
    }
  }

  /** The fragment length of a crafted record. */
  function RecordLength(contentLength: nat, padOverride: int): nat {
    var padding := if padOverride >= 0 then padOverride + 1 else PadValue(contentLength + 20) + 1;
    16 + (contentLength + 20 + padding + 15) / 16 * 16
  }

  /** The 16-bit length field can hold it. */
  predicate FitsRecord(contentLength: nat, padOverride: int) {
    RecordLength(contentLength, padOverride) < 0x1_0000
  }

  lemma CraftedLength(mac: Sha1Digest, content: seq<byte>, forceBadMac: bool, padOverride: int)
    ensures RecordLength(|content|, padOverride) == 16 + |ZeroFilled(Crafted(mac, content, forceBadMac, padOverride))|
  {
    hide ZeroFilled, Fill;
    FilledLength(Crafted(mac, content, forceBadMac, padOverride));
  }

  lemma FilledLength(plain: seq<byte>)
    ensures |ZeroFilled(plain)| == (|plain| + 15) / 16 * 16
  {
  }

  /** How much of an overlong fragment the length field announces; it ends inside the content. */
  function AnnouncedLength(contentLength: nat, padOverride: int): (n: nat)
    ensures !FitsRecord(contentLength, padOverride) && padOverride <= 255 ==> n < contentLength
  {
    RecordLength(contentLength, padOverride) % 0x1_0000
  }

  /** What reaches the check of a record with this plaintext: all of it, or what a truncated length leaves. */
  function CheckDelivered(c: Crypto, macKey: seq<byte>, seqNum: uint64, contentType: byte, filled: seq<byte>): Decoded {
    var length := (16 + |filled|) % 0x1_0000;
    if length < 32 || length > 16 + |filled| then Malformed
    else CheckPlaintext(c, macKey, seqNum, contentType, filled[..length - 16])
  }

  /** A record decodes to its plaintext's prefix that the 16-bit length field delimits. */
  lemma DeliveredFragment(c: Crypto, keys: Keys, seqNum: uint64, contentType: byte, iv: Block, plain: seq<byte>)
    requires AesInverts(c)
    ensures ServerReceives(c, keys, seqNum, WrapRecord(contentType, Fragment(c, keys.clientKey, iv, plain))) ==
            CheckDelivered(c, keys.clientMac, seqNum, contentType, ZeroFilled(plain))
  {
    hide CheckPlaintext, CbcDecrypt, Fragment, ZeroFilled, WrapRecord, GetU16, CbcEncrypt;
    var fragment, length := Fragment(c, keys.clientKey, iv, plain), |Fragment(c, keys.clientKey, iv, plain)| % 0x1_0000;
    OpenFragment(c, keys.clientKey, iv, plain);
    TruncatedRecord(contentType, fragment);
    if length >= 32 {
      DecryptedPrefix(c, keys.clientKey, fragment, length);
    }
  }

  lemma DecryptedPrefix(c: Crypto, key: seq<byte>, fragment: seq<byte>, length: nat)
    requires 16 <= length <= |fragment| && length % 16 == |fragment| % 16 == 0
    ensures fragment[..length][..16] == fragment[..16]
    ensures CbcDecrypt(c, key, fragment[..length][..16], fragment[..length][16..]) ==
            CbcDecrypt(c, key, fragment[..16], fragment[16..])[..length - 16]
  {
    hide CbcDecrypt;
    assert fragment[..length][..16] == fragment[..16] && fragment[..length][16..] == fragment[16..][..length - 16];
    CbcPrefix(c, key, fragment[..16], fragment[16..], length - 16);
  }

  lemma TruncatedRecord(contentType: byte, body: seq<byte>)
    ensures var record, length := WrapRecord(contentType, body), |body| % 0x1_0000;
            && GetU16(record, 3) == length && record[0] == contentType && record[5..5 + length] == body[..length]
            && record[1] == 3 && record[2] == 3
  {
    var record, length := WrapRecord(contentType, body), |body| % 0x1_0000;
    LowBytes(|body|);
    assert record[5..] == body;
    assert record[5..5 + length] == record[5..][..length];
  }

  lemma ServerReceivesSealed(c: Crypto, keys: Keys, seqNum: uint64, contentType: byte, content: seq<byte>,
                             forceBadMac: bool, padOverride: int, iv: Block)
    requires AesInverts(c)
    ensures var filled := ZeroFilled(Plain(c, keys.clientMac, seqNum, contentType, content, forceBadMac, padOverride));
            ServerReceives(c, keys, seqNum, Seal(c, keys, seqNum, contentType, content, forceBadMac, padOverride, iv)) ==
            if FitsRecord(|content|, padOverride) then CheckPlaintext(c, keys.clientMac, seqNum, contentType, filled)
            else CheckDelivered(c, keys.clientMac, seqNum, contentType, filled)
  {
    hide CheckPlaintext, Fragment, WrapRecord, ZeroFilled;
    var plain := Plain(c, keys.clientMac, seqNum, contentType, content, forceBadMac, padOverride);
    DeliveredFragment(c, keys, seqNum, contentType, iv, plain);
    CraftedLength(c.hmacSha1(keys.clientMac, MacInput(seqNum, contentType, content)), content, forceBadMac, padOverride);
    if FitsRecord(|content|, padOverride) {
      assert |plain| > 0;
      assert ZeroFilled(plain)[..|ZeroFilled(plain)|] == ZeroFilled(plain);
    }
  }

  /** An overlong record is cut inside its content: what is decoded holds neither its MAC nor its padding. */
  lemma OverlongIsContent(c: Crypto, macKey: seq<byte>, seqNum: uint64, contentType: byte, mac: Sha1Digest,
                          content: seq<byte>, forceBadMac: bool, padOverride: int)
    requires !FitsRecord(|content|, padOverride) && padOverride <= 255
    ensures var length := AnnouncedLength(|content|, padOverride);
            CheckDelivered(c, macKey, seqNum, contentType, ZeroFilled(Crafted(mac, content, forceBadMac, padOverride))) ==
            if length < 32 then Malformed else CheckPlaintext(c, macKey, seqNum, contentType, content[..length - 16])
  {
    hide CheckPlaintext;
    var filled, length := ZeroFilled(Crafted(mac, content, forceBadMac, padOverride)), AnnouncedLength(|content|, padOverride);
    CraftedLength(mac, content, forceBadMac, padOverride);
    assert filled[..|content|] == content;
    if length >= 32 {
      assert filled[..length - 16] == content[..length - 16];
    }
  }

  // ----- the meaning of each stimulus, for every content -----

  /** The padded length is the least multiple of the block size strictly above |content| + 20. */
  lemma PaddedLengthIsLeast(mac: Sha1Digest, content: seq<byte>, forceBadMac: bool, padOverride: int, other: nat)
    requires padOverride < 0
    ensures var n := |Crafted(mac, content, forceBadMac, padOverride)|;
            n % 16 == 0 && n > |content| + 20 && (other % 16 == 0 && other > |content| + 20 ==> other >= n)
  {
  }

  /** Splitting a plaintext whose padding is known. */
  lemma CheckPadded(c: Crypto, macKey: seq<byte>, seqNum: uint64, contentType: byte,
                    content: seq<byte>, window: Sha1Digest, padLen: byte)
    ensures CheckPlaintext(c, macKey, seqNum, contentType, content + window + Fill(padLen, padLen + 1)) ==
            if c.hmacSha1(macKey, MacInput(seqNum, contentType, content)) == window then Accepted(content) else BadMac
  {
    MacInputIsRfc(seqNum, contentType, content);
    hide MacInput, Rfc5246.MacHeader;
    var pt := content + window + Fill(padLen, padLen + 1);
    var end := |pt| - padLen - 1;
    assert pt[|pt| - 1] == padLen;
    assert PaddingOk(pt);
    assert pt[..end - 20] == content && pt[end - 20..end] == window;
  }

  lemma FlipDiffers(mac: Sha1Digest)
    ensures Flip(mac) != mac
  {
    hide Xor;
    XorParity(mac[19], 0xff);
  }

  lemma WellFormedShape(mac: Sha1Digest, content: seq<byte>, forceBadMac: bool)
    ensures var p := PadValue(|content| + 20);
            ZeroFilled(Crafted(mac, content, forceBadMac, -1)) ==
            content + (if forceBadMac then Flip(mac) else mac) + Fill(p, p + 1)
  {
  }

  lemma WellFormedAccepted(c: Crypto, macKey: seq<byte>, seqNum: uint64, contentType: byte, content: seq<byte>)
    ensures CheckPlaintext(c, macKey, seqNum, contentType,
              ZeroFilled(Plain(c, macKey, seqNum, contentType, content, false, -1))) == Accepted(content)
  {
    hide MacInput, Flip, CheckPlaintext;
    var mac := c.hmacSha1(macKey, MacInput(seqNum, contentType, content));
    WellFormedShape(mac, content, false);
    CheckPadded(c, macKey, seqNum, contentType, content, mac, PadValue(|content| + 20));
  }

  lemma BadMacRejected(c: Crypto, macKey: seq<byte>, seqNum: uint64, contentType: byte, content: seq<byte>)
    ensures CheckPlaintext(c, macKey, seqNum, contentType,
              ZeroFilled(Plain(c, macKey, seqNum, contentType, content, true, -1))) == BadMac
  {
    hide MacInput, Flip, CheckPlaintext;
    var mac := c.hmacSha1(macKey, MacInput(seqNum, contentType, content));
    WellFormedShape(mac, content, true);
    CheckPadded(c, macKey, seqNum, contentType, content, Flip(mac), PadValue(|content| + 20));
    FlipDiffers(mac);
  }

  /** The zero fill behind the zero-length stimulus. */
  function ZeroPadFill(contentLength: nat): (z: nat)
    ensures z < 16
  {
    (16 - (contentLength + 21) % 16) % 16
  }

  /** What the zero-length stimulus leaves as content, and what as MAC. */
  function ZeroPadClaimed(mac: Sha1Digest, content: seq<byte>): seq<byte> {
    content + Flip(mac)[..ZeroPadFill(|content|)]
  }

  function ZeroPadWindow(mac: Sha1Digest, contentLength: nat): Sha1Digest {
    Flip(mac)[ZeroPadFill(contentLength)..] + Fill(0, ZeroPadFill(contentLength))
  }

  lemma ZeroPadShape(mac: Sha1Digest, content: seq<byte>)
    ensures ZeroFilled(Crafted(mac, content, true, 0)) ==
            ZeroPadClaimed(mac, content) + ZeroPadWindow(mac, |content|) + Fill(0, 0 + 1)
  {
    var z, flipped := ZeroPadFill(|content|), Flip(mac);
    assert Crafted(mac, content, true, 0) == content + flipped + Fill(0, 1);
    assert flipped == flipped[..z] + flipped[z..];
    assert Fill(0, 1) + Fill(0, z) == Fill(0, z) + Fill(0, 1);
  }

  lemma LastByte(s: seq<byte>, b: byte, n: nat)
    requires n > 0
    ensures var t := s + Fill(b, n); t[|t| - 1] == b
  {
  }

  lemma UnshiftedWindow(mac: Sha1Digest, content: seq<byte>)
    requires ZeroPadFill(|content|) == 0
    ensures ZeroPadClaimed(mac, content) + ZeroPadWindow(mac, |content|) == content + Flip(mac)
  {
    assert Flip(mac)[..0] + Flip(mac)[0..] == Flip(mac);
  }

  /** The zero-length stimulus is the bad-MAC stimulus exactly when one pad byte completes a block. */
  lemma ZeroPadIsBadMacIff(mac: Sha1Digest, content: seq<byte>)
    ensures ZeroFilled(Crafted(mac, content, true, 0)) == ZeroFilled(Crafted(mac, content, true, -1))
            <==> (|content| + 21) % 16 == 0
  {
    hide Crafted, Flip, ZeroFilled, Fill, ZeroPadClaimed, ZeroPadWindow;
    var p := PadValue(|content| + 20);
    ZeroPadShape(mac, content);
    WellFormedShape(mac, content, true);
    LastByte(ZeroPadClaimed(mac, content) + ZeroPadWindow(mac, |content|), 0, 1);
    LastByte(content + Flip(mac), p, p + 1);
    if p == 0 {
      UnshiftedWindow(mac, content);
    }
  }

  /** The MAC of the claimed content happens to be the shifted window. */
  predicate ZeroPadCollides(c: Crypto, macKey: seq<byte>, seqNum: uint64, contentType: byte, content: seq<byte>) {
    var mac := c.hmacSha1(macKey, MacInput(seqNum, contentType, content));
    c.hmacSha1(macKey, MacInput(seqNum, contentType, ZeroPadClaimed(mac, content))) == ZeroPadWindow(mac, |content|)
  }

  lemma ZeroPadMeaning(c: Crypto, macKey: seq<byte>, seqNum: uint64, contentType: byte, content: seq<byte>)
    ensures var d := CheckPlaintext(c, macKey, seqNum, contentType,
                       ZeroFilled(Plain(c, macKey, seqNum, contentType, content, true, 0)));
            && (d.Accepted? <==> ZeroPadCollides(c, macKey, seqNum, contentType, content))
            && (!d.Accepted? ==> d == BadMac)
  {
    var mac := c.hmacSha1(macKey, MacInput(seqNum, contentType, content));
    ZeroPadShape(mac, content);
    CheckPadded(c, macKey, seqNum, contentType, ZeroPadClaimed(mac, content), ZeroPadWindow(mac, |content|), 0);
  }

  /** The zero fill behind the 255-pad stimulus. */
  function Pad255Fill(contentLength: nat): (z: nat)
    ensures z < 16
  {
    (16 - (contentLength + 20) % 16) % 16
  }

  /** What an unaligned 255-pad record leaves as content, and what as MAC: filler only. */
  function Pad255Claimed(mac: Sha1Digest, content: seq<byte>): seq<byte> {
    content + mac + Fill(255, 235 + Pad255Fill(|content|))
  }

  function Pad255Window(contentLength: nat): Sha1Digest
    requires Pad255Fill(contentLength) > 0
  {
    Fill(255, 21 - Pad255Fill(contentLength)) + Fill(0, Pad255Fill(contentLength) - 1)
  }

  /** The MAC of the claimed content happens to be the filler window. */
  predicate Pad255Collides(c: Crypto, macKey: seq<byte>, seqNum: uint64, contentType: byte, content: seq<byte>) {
    && Pad255Fill(|content|) > 0
    && var mac := c.hmacSha1(macKey, MacInput(seqNum, contentType, content));
       c.hmacSha1(macKey, MacInput(seqNum, contentType, Pad255Claimed(mac, content))) == Pad255Window(|content|)
  }

  lemma Pad255Shape(mac: Sha1Digest, content: seq<byte>)
    ensures var z := Pad255Fill(|content|);
            ZeroFilled(Crafted(mac, content, false, 255)) ==
            if z == 0 then content + mac + Fill(255, 255 + 1)
            else Pad255Claimed(mac, content) + Pad255Window(|content|) + Fill(0, 0 + 1)
  {
    hide Fill, Pad255Fill, ZeroFilled, Crafted;
    var z := Pad255Fill(|content|);
    Pad255Filled(mac, content);
    if z > 0 {
      FillSplit(255, 235 + z, 21 - z);
      FillSplit(0, z - 1, 1);
      Regroup(content + mac, Fill(255, 235 + z), Fill(255, 21 - z), Fill(0, z - 1), Fill(0, 1));
    }
  }

  lemma Pad255Filled(mac: Sha1Digest, content: seq<byte>)
    ensures var z, plain := Pad255Fill(|content|), content + mac + Fill(255, 256);
            ZeroFilled(Crafted(mac, content, false, 255)) == plain + Fill(0, z) && (z == 0 ==> plain + Fill(0, z) == plain)
  {
    hide Fill, ZeroFilled;
    var plain := content + mac + Fill(255, 256);
    assert Crafted(mac, content, false, 255) == plain && |plain| == |content| + 276;
    FillsUp(plain, Pad255Fill(|content|));
  }

  lemma FillsUp(plain: seq<byte>, z: nat)
    requires z < 16 && (|plain| + z) % 16 == 0
    ensures ZeroFilled(plain) == plain + Fill(0, z) && (z == 0 ==> plain + Fill(0, z) == plain)
  {
    assert (16 - |plain| % 16) % 16 == z;
  }

  lemma FillSplit(b: byte, m: nat, n: nat)
    ensures Fill(b, m + n) == Fill(b, m) + Fill(b, n)
  {
  }

  lemma Regroup(head: seq<byte>, a: seq<byte>, b: seq<byte>, c: seq<byte>, d: seq<byte>)
    ensures head + (a + b) + (c + d) == (head + a) + (b + c) + d
  {
  }

  lemma Pad255Aligned(c: Crypto, macKey: seq<byte>, seqNum: uint64, contentType: byte, content: seq<byte>)
    requires Pad255Fill(|content|) == 0
    ensures CheckPlaintext(c, macKey, seqNum, contentType,
              ZeroFilled(Plain(c, macKey, seqNum, contentType, content, false, 255))) == Accepted(content)
  {
    var mac := c.hmacSha1(macKey, MacInput(seqNum, contentType, content));
    Pad255Shape(mac, content);
    CheckPadded(c, macKey, seqNum, contentType, content, mac, 255);
  }

  lemma Pad255Unaligned(c: Crypto, macKey: seq<byte>, seqNum: uint64, contentType: byte, content: seq<byte>)
    requires Pad255Fill(|content|) > 0
    ensures var mac := c.hmacSha1(macKey, MacInput(seqNum, contentType, content));
            CheckPlaintext(c, macKey, seqNum, contentType,
              ZeroFilled(Plain(c, macKey, seqNum, contentType, content, false, 255))) ==
            if Pad255Collides(c, macKey, seqNum, contentType, content) then Accepted(Pad255Claimed(mac, content)) else BadMac
  {
    var mac := c.hmacSha1(macKey, MacInput(seqNum, contentType, content));
    Pad255Shape(mac, content);
    CheckPadded(c, macKey, seqNum, contentType, Pad255Claimed(mac, content), Pad255Window(|content|), 0);
  }

  /**
   The 255-pad stimulus is a well-formed record when content and MAC fill whole blocks. Otherwise
   its padding still passes, as one zero byte, and only the MAC comparison rejects it.
   */
  lemma Pad255Meaning(c: Crypto, macKey: seq<byte>, seqNum: uint64, contentType: byte, content: seq<byte>)
    ensures var d := CheckPlaintext(c, macKey, seqNum, contentType,
                       ZeroFilled(Plain(c, macKey, seqNum, contentType, content, false, 255)));
            && ((|content| + 20) % 16 == 0 ==> d == Accepted(content))
            && (d.Accepted? <==> (|content| + 20) % 16 == 0 || Pad255Collides(c, macKey, seqNum, contentType, content))
            && (!d.Accepted? ==> d == BadMac)
  {
    hide CheckPlaintext, ZeroFilled, Plain, Pad255Collides;
    if Pad255Fill(|content|) == 0 {
      Pad255Aligned(c, macKey, seqNum, contentType, content);
    } else {
      Pad255Unaligned(c, macKey, seqNum, contentType, content);
    }
  }

  /** None of the four stimuli ever carries invalid padding: every one is decided by its MAC alone. */
  lemma PaddingAlwaysPasses(c: Crypto, macKey: seq<byte>, seqNum: uint64, contentType: byte, content: seq<byte>)
    ensures PaddingOk(ZeroFilled(Plain(c, macKey, seqNum, contentType, content, false, -1)))
    ensures PaddingOk(ZeroFilled(Plain(c, macKey, seqNum, contentType, content, true, -1)))
    ensures PaddingOk(ZeroFilled(Plain(c, macKey, seqNum, contentType, content, true, 0)))
    ensures PaddingOk(ZeroFilled(Plain(c, macKey, seqNum, contentType, content, false, 255)))
  {
    hide Plain, ZeroFilled, PaddingOk, ZeroPadCollides, Pad255Collides;
    WellFormedAccepted(c, macKey, seqNum, contentType, content);
    BadMacRejected(c, macKey, seqNum, contentType, content);
    ZeroPadMeaning(c, macKey, seqNum, contentType, content);
    Pad255Meaning(c, macKey, seqNum, contentType, content);
  }

  // ----- the session -----

  lemma NoPadding(body: seq<byte>)
    ensures forall b: byte :: body + Fill(b, 0) == body
  {
  }

  lemma PadStep(body: seq<byte>, b: byte, n: nat)
    ensures (body + Fill(b, n)) + [b] == body + Fill(b, n + 1)
  {
  }

  class CbcSession {
    const crypto: Crypto
    const conn: Conn
    const params: CipherParams
    const keys: Keys
    var clientSeq: uint64
    var serverSeq: uint64

    ghost predicate Valid() {
      params.ivLen == 16 && params.macLen == 20
    }

    constructor (crypto: Crypto, conn: Conn, params: CipherParams, keys: Keys)
      ensures this.crypto == crypto && this.conn == conn && this.params == params && this.keys == keys
      ensures clientSeq == 0 && serverSeq == 0
    {
      this.crypto, this.conn, this.params, this.keys := crypto, conn, params, keys;
      clientSeq, serverSeq := 0, 0;
    }

    method ComputeMac(macKey: seq<byte>, seqNum: uint64, contentType: byte, content: seq<byte>)
      returns (mac: Sha1Digest)
      ensures mac == Rfc5246.RecordMac(crypto, macKey, seqNum, contentType, content)
      ensures mac == crypto.hmacSha1(macKey, MacInput(seqNum, contentType, content))
    {
      MacInputIsRfc(seqNum, contentType, content);
      var hdr := new byte[13];
      var counter := BigEndian(seqNum, 8);
      forall i | 0 <= i < 8 {
        hdr[i] := counter[i];
      }
      hdr[8] := contentType;
      hdr[9], hdr[10] := 0x03, 0x03;
      hdr[11], hdr[12] := |content| / 0x100 % 0x100, |content| % 0x100;
      assert hdr[..] + content == MacInput(seqNum, contentType, content);
      mac := crypto.hmacSha1(macKey, hdr[..] + content);
    }

    method MacThenPad(contentType: byte, content: seq<byte>, forceBadMac: bool, padOverride: int)
      returns (plain: seq<byte>)
      requires Valid()
      ensures plain == Plain(crypto, keys.clientMac, clientSeq, contentType, content, forceBadMac, padOverride)
    {
      hide Fill, Xor, MacInput, Rfc5246.MacHeader, Rfc5246.RecordMac;
      var mac := ComputeMac(keys.clientMac, clientSeq, contentType, content);
      if forceBadMac && |mac| > 0 {
        mac := mac[|mac| - 1 := Xor(mac[|mac| - 1], 0xff)];
      }
      plain := content + mac;
      ghost var body := plain;
      NoPadding(body);
      var blockSize := params.ivLen;
      if padOverride >= 0 {
        var n := padOverride + 1;
        for i := 0 to n
          invariant plain == body + Fill(padOverride % 0x100, i)
        {
          PadStep(body, padOverride % 0x100, i);
          plain := plain + [padOverride % 0x100];
        }
        return;
      }
      var rem := (|plain| + 1) % blockSize;
      var padLen := 0;
      if rem != 0 {
        padLen := blockSize - rem;
      }
      assert padLen == PadValue(|body|);
      for i := 0 to padLen + 1
        invariant plain == body + Fill(padLen, i)
      {
        PadStep(body, padLen, i);
        plain := plain + [padLen];
      }
    }

    /** iv is what the random source returned, None if it failed. */
    method EncryptRecord(contentType: byte, plain: seq<byte>, iv: Option<Block>)
      returns (record: Option<seq<byte>>)
      requires Valid()
      ensures record == if iv.Some? && |keys.clientKey| in {16, 24, 32}
                        then Some(WrapRecord(contentType, Fragment(crypto, keys.clientKey, iv.value, plain)))
                        else None
    {
      if |keys.clientKey| !in {16, 24, 32} {
        return None;
      }
      if iv.None? {
        return None;
      }
      var aligned := plain;
      if |aligned| % params.ivLen != 0 {
        var pad := params.ivLen - |aligned| % params.ivLen;
        aligned := aligned + Fill(0, pad);
      }
      assert aligned == ZeroFilled(plain);
      return Some(WrapRecord(contentType, iv.value + CbcEncrypt(crypto, keys.clientKey, iv.value, aligned)));
    }

    method SendCrafted(content: seq<byte>, forceBadMac: bool, padOverride: int, iv: Option<Block>)
      returns (ok: bool)
      requires Valid()
      modifies this`clientSeq, conn
      ensures ok == SendStep(crypto, conn.peer, keys, Sender(old(clientSeq), old(conn.State())),
                             Attempt(content, forceBadMac, padOverride, iv)).Some?
      ensures Sender(clientSeq, conn.State()) ==
              AfterAttempt(crypto, conn.peer, keys, Sender(old(clientSeq), old(conn.State())),
                           Attempt(content, forceBadMac, padOverride, iv))
    {
      var plain := MacThenPad(APPLICATION_DATA_RECORD, content, forceBadMac, padOverride);
      var record := EncryptRecord(APPLICATION_DATA_RECORD, plain, iv);
      if record.None? {
        return false;
      }
      ok := conn.Write(record.value);
      if ok {
        clientSeq := Next(clientSeq);
      }
    }

    /** The repository's own decoder: it strips padding and MAC without checking either. */
    method DecryptServerRecord(fragment: seq<byte>) returns (content: Option<seq<byte>>)
      requires Valid()
      ensures content == LooseDecode(crypto, keys.serverKey, fragment)
    {
      if |fragment| < params.ivLen + params.ivLen {
        return None;
      }
      var iv := fragment[..params.ivLen];
      var ct := fragment[params.ivLen..];
      if |ct| % params.ivLen != 0 {
        return None;
      }
      if |keys.serverKey| !in {16, 24, 32} {
        return None;
      }
      var pt := CbcDecrypt(crypto, keys.serverKey, iv, ct);
      if |pt| == 0 {
        return None;
      }
      var padLen := pt[|pt| - 1];
      if padLen + 1 > |pt| {
        return None;
      }
      ghost var whole := pt;
      pt := pt[..|pt| - padLen - 1];
      if |pt| < params.macLen {
        return None;
      }
      content := Some(pt[..|pt| - params.macLen]);
      assert content.value == whole[..|whole| - padLen - 21];
    }
  }

  function LooseDecode(c: Crypto, key: seq<byte>, fragment: seq<byte>): Option<seq<byte>> {
    if |fragment| < 32 || |fragment| % 16 != 0 || |key| !in {16, 24, 32} then None
    else
      var pt := CbcDecrypt(c, key, fragment[..16], fragment[16..]);
      var end := |pt| - pt[|pt| - 1] - 1;
      if end < 20 then None else Some(pt[..end - 20])
  }

  /** Whatever a strict receiver accepts, the loose decoder decodes to the same content. */
  lemma LooseDecodeAgrees(c: Crypto, key: seq<byte>, macKey: seq<byte>, seqNum: uint64, contentType: byte,
                          fragment: seq<byte>)
    requires |key| in {16, 24, 32}
    requires Receive(c, key, macKey, seqNum, contentType, fragment).Accepted?
    ensures LooseDecode(c, key, fragment) ==
            Some(Receive(c, key, macKey, seqNum, contentType, fragment).content)
  {
  }

  /** The content of a plaintext cut into content, 20 bytes and a padding as long as its last byte says. */
  predicate LooselyPadded(pt: seq<byte>, content: seq<byte>, mac: seq<byte>, pad: seq<byte>) {
    pt == content + mac + pad && |mac| == 20 && |pad| >= 1 && |pad| == pad[|pad| - 1] as int + 1
  }

  ghost predicate CutsTo(pt: seq<byte>, content: seq<byte>) {
    exists mac, pad :: LooselyPadded(pt, content, mac, pad)
  }

  /** The loose decoder cuts exactly there, and checks nothing else. */
  lemma LooseDecodeExact(c: Crypto, key: seq<byte>, fragment: seq<byte>, content: seq<byte>)
    ensures LooseDecode(c, key, fragment) == Some(content) <==>
            && |fragment| >= 32 && |fragment| % 16 == 0 && |key| in {16, 24, 32}
            && CutsTo(CbcDecrypt(c, key, fragment[..16], fragment[16..]), content)
  {
    hide CbcDecrypt, CutsTo;
    if |fragment| >= 32 && |fragment| % 16 == 0 && |key| in {16, 24, 32} {
      var pt := CbcDecrypt(c, key, fragment[..16], fragment[16..]);
      var end := |pt| - pt[|pt| - 1] - 1;
      assert LooseDecode(c, key, fragment) == if end < 20 then None else Some(pt[..end - 20]);
      CutLoosely(pt, content);
    }
  }

  lemma CutLoosely(pt: seq<byte>, content: seq<byte>)
    requires |pt| > 0
    ensures var end := |pt| - pt[|pt| - 1] - 1;
            end >= 20 && pt[..end - 20] == content <==> CutsTo(pt, content)
  {
    var end := |pt| - pt[|pt| - 1] - 1;
    if end >= 20 && pt[..end - 20] == content {
      assert pt == pt[..end - 20] + pt[end - 20..end] + pt[end..];
      assert LooselyPadded(pt, content, pt[end - 20..end], pt[end..]);
    }
    if mac, pad :| LooselyPadded(pt, content, mac, pad) {
      assert pt[|pt| - 1] == pad[|pad| - 1];
      assert pt[..|content|] == content;
    }
  }

  /** Record round trip through the strict receiver and through the repository's decoder. */
  lemma RecordRoundTrip(c: Crypto, key: seq<byte>, macKey: seq<byte>, seqNum: uint64, contentType: byte,
                        content: seq<byte>, iv: Block)
    requires AesInverts(c) && |key| in {16, 24, 32}
    ensures var fragment := Fragment(c, key, iv, Plain(c, macKey, seqNum, contentType, content, false, -1));
            && Receive(c, key, macKey, seqNum, contentType, fragment) == Accepted(content)
            && LooseDecode(c, key, fragment) == Some(content)
  {
    var plain := Plain(c, macKey, seqNum, contentType, content, false, -1);
    ReceiveFragment(c, key, macKey, seqNum, contentType, iv, plain);
    WellFormedAccepted(c, macKey, seqNum, contentType, content);
    LooseDecodeAgrees(c, key, macKey, seqNum, contentType, Fragment(c, key, iv, plain));
  }

  // ----- runs of sends -----

  datatype Sender = Sender(seqNum: uint64, link: Link)
  datatype Attempt = Attempt(content: seq<byte>, forceBadMac: bool, padOverride: int, iv: Option<Block>)

  function SealAttempt(c: Crypto, keys: Keys, seqNum: uint64, a: Attempt): seq<byte>
    requires a.iv.Some?
  {
    Seal(c, keys, seqNum, APPLICATION_DATA_RECORD, a.content, a.forceBadMac, a.padOverride, a.iv.value)
  }

  /** One sendCrafted: the state after it, or None when it reported an error. */
  function SendStep(c: Crypto, peer: Peer, keys: Keys, s: Sender, a: Attempt): Option<Sender> {
    if a.iv.None? || |keys.clientKey| !in {16, 24, 32} then None
    else
      match Written(peer, s.link, SealAttempt(c, keys, s.seqNum, a))
      case None => None
      case Some(link) => Some(Sender(Next(s.seqNum), link))
  }

  function AfterAttempt(c: Crypto, peer: Peer, keys: Keys, s: Sender, a: Attempt): Sender {
    match SendStep(c, peer, keys, s, a)
    case None => s
    case Some(s') => s'
  }

  function Run(c: Crypto, peer: Peer, keys: Keys, s: Sender, attempts: seq<Attempt>): Sender
    decreases |attempts|
  {
    if attempts == [] then s
    else Run(c, peer, keys, AfterAttempt(c, peer, keys, s, attempts[0]), attempts[1..])
  }

  /** The attempts of a run whose record went out. */
  function Through(c: Crypto, peer: Peer, keys: Keys, s: Sender, attempts: seq<Attempt>): (t: seq<Attempt>)
    ensures forall i :: 0 <= i < |t| ==> t[i] in attempts && t[i].iv.Some?
    decreases |attempts|
  {
    if attempts == [] then []
    else
      var rest := Through(c, peer, keys, AfterAttempt(c, peer, keys, s, attempts[0]), attempts[1..]);
      if SendStep(c, peer, keys, s, attempts[0]).Some? then [attempts[0]] + rest else rest
  }

  /** clientSeq++ on a uint64. */
  function Next(seqNum: uint64): uint64 {
    if seqNum == 0xffff_ffff_ffff_ffff then 0 else seqNum + 1
  }

  /** The counter after n sends. */
  function Advance(seqNum: uint64, n: nat): uint64
    decreases n
  {
    if n == 0 then seqNum else Advance(Next(seqNum), n - 1)
  }

  lemma {:induction false} AdvanceIsAddition(seqNum: uint64, n: nat)
    ensures Advance(seqNum, n) == (seqNum + n) % 0x1_0000_0000_0000_0000
    decreases n
  {
    if n > 0 {
      AdvanceIsAddition(Next(seqNum), n - 1);
      WrapAround(n - 1);
    }
  }

  lemma WrapAround(n: nat)
    ensures (n + 0x1_0000_0000_0000_0000) % 0x1_0000_0000_0000_0000 == n % 0x1_0000_0000_0000_0000
  {
  }

  /** The records of consecutive sends. */
  function SealAll(c: Crypto, keys: Keys, first: uint64, attempts: seq<Attempt>): (r: seq<seq<byte>>)
    requires forall a :: a in attempts ==> a.iv.Some?
    ensures |r| == |attempts|
    decreases |attempts|
  {
    if attempts == [] then []
    else [SealAttempt(c, keys, first, attempts[0])] + SealAll(c, keys, Next(first), attempts[1..])
  }

  lemma {:induction false} SealAllAt(c: Crypto, keys: Keys, first: uint64, attempts: seq<Attempt>, i: nat)
    requires i < |attempts| && forall a :: a in attempts ==> a.iv.Some?
    ensures SealAll(c, keys, first, attempts)[i] ==
            SealAttempt(c, keys, Advance(first, i), attempts[i])
    decreases i
  {
    hide SealAttempt;
    if i > 0 {
      SealAllAt(c, keys, Next(first), attempts[1..], i - 1);
    }
  }

  /**
   Sequence safety: over every run, failed sends included, the i-th record that went out is sealed
   under first + i and the counter equals the number sent.
   */
  lemma {:induction false} RunSequence(c: Crypto, peer: Peer, keys: Keys, s: Sender, attempts: seq<Attempt>)
    ensures var through := Through(c, peer, keys, s, attempts);
            var end := Run(c, peer, keys, s, attempts);
            && end.link.sent == s.link.sent + SealAll(c, keys, s.seqNum, through)
            && end.seqNum == Advance(s.seqNum, |through|)
    decreases |attempts|
  {
    hide SealAttempt, SendStep, SealAll, Advance;
    if attempts == [] {
      SealNothing(c, keys, s.seqNum);
    } else {
      var s' := AfterAttempt(c, peer, keys, s, attempts[0]);
      RunSequence(c, peer, keys, s', attempts[1..]);
      if SendStep(c, peer, keys, s, attempts[0]).Some? {
        SendStepEffect(c, peer, keys, s, attempts[0]);
        SealFirst(c, keys, s.seqNum, attempts[0], Through(c, peer, keys, s', attempts[1..]));
      }
    }
  }

  lemma SendStepEffect(c: Crypto, peer: Peer, keys: Keys, s: Sender, a: Attempt)
    requires SendStep(c, peer, keys, s, a).Some?
    ensures var s' := SendStep(c, peer, keys, s, a).value;
            a.iv.Some? && s'.seqNum == Next(s.seqNum) && s'.link.sent == s.link.sent + [SealAttempt(c, keys, s.seqNum, a)]
  {
    hide SealAttempt;
  }

  lemma SealNothing(c: Crypto, keys: Keys, first: uint64)
    ensures SealAll(c, keys, first, []) == [] && Advance(first, 0) == first
  {
  }

  lemma SealFirst(c: Crypto, keys: Keys, first: uint64, a: Attempt, rest: seq<Attempt>)
    requires a.iv.Some? && forall b :: b in rest ==> b.iv.Some?
    ensures SealAll(c, keys, first, [a] + rest) == [SealAttempt(c, keys, first, a)] + SealAll(c, keys, Next(first), rest)
    ensures Advance(first, |[a] + rest|) == Advance(Next(first), |rest|)
  {
    hide SealAttempt;
    assert ([a] + rest)[1..] == rest;
  }

  /** A receiver with its own counter; it stops at the first record it does not accept. */
  function ReceiveAll(c: Crypto, keys: Keys, seqNum: uint64, records: seq<seq<byte>>): Option<seq<seq<byte>>>
    decreases |records|
  {
    if records == [] then Some([])
    else
      match ServerReceives(c, keys, seqNum, records[0])
      case Accepted(content) =>
        (match ReceiveAll(c, keys, Next(seqNum), records[1..])
         case Some(rest) => Some([content] + rest)
         case None => None)
      case _ => None
  }

  function Contents(attempts: seq<Attempt>): seq<seq<byte>> {
    if attempts == [] then [] else [attempts[0].content] + Contents(attempts[1..])
  }

  /** Every run of well-formed records is accepted, and its contents come back in order. */
  lemma {:induction false} ReceiverRecovers(c: Crypto, keys: Keys, first: uint64, attempts: seq<Attempt>)
    requires AesInverts(c)
    requires forall a :: a in attempts ==>
               a.iv.Some? && !a.forceBadMac && a.padOverride == -1 && FitsRecord(|a.content|, -1)
    ensures ReceiveAll(c, keys, first, SealAll(c, keys, first, attempts)) == Some(Contents(attempts))
    decreases |attempts|
  {
    if attempts != [] {
      var a := attempts[0];
      ServerReceivesSealed(c, keys, first, APPLICATION_DATA_RECORD, a.content, false, -1, a.iv.value);
      WellFormedAccepted(c, keys.clientMac, first, APPLICATION_DATA_RECORD, a.content);
      ReceiverRecovers(c, keys, Next(first), attempts[1..]);
    }
  }

  /**
   Sender and receiver over a whole run, failed sends included: the records that went out decode,
   under the receiver's own counter, to the contents of the sends that succeeded, in order.
   */
  lemma RunReceived(c: Crypto, peer: Peer, keys: Keys, s: Sender, attempts: seq<Attempt>)
    requires AesInverts(c)
    requires forall a :: a in attempts ==> !a.forceBadMac && a.padOverride == -1 && FitsRecord(|a.content|, -1)
    ensures var end := Run(c, peer, keys, s, attempts);
            && s.link.sent <= end.link.sent
            && ReceiveAll(c, keys, s.seqNum, end.link.sent[|s.link.sent|..]) ==
               Some(Contents(Through(c, peer, keys, s, attempts)))
  {
    hide Run, Through, ReceiveAll, Contents, SealAll, FitsRecord;
    RunSequence(c, peer, keys, s, attempts);
    ReceiverRecovers(c, keys, s.seqNum, Through(c, peer, keys, s, attempts));
  }
}
