/** RSA framing: textbook encryption of a padded block, and the five PKCS#1 v1.5 blocks. */
module Rsa {
  import opened Bytes
  import opened Wrappers
  import opened Primitives
  import opened NumberTheory

  // ----- sizes -----

  /** big.Int.BitLen. */
  function BitLen(n: nat): nat {
    if n == 0 then 0 else 1 + BitLen(n / 2)
  }

  /** The modulus in whole bytes. */
  function ModulusBytes(n: nat): nat {
    (BitLen(n) + 7) / 8
  }

  lemma {:induction false} BitLenBounds(n: nat)
    requires n > 0
    ensures BitLen(n) >= 1 && Pow(2, BitLen(n) - 1) <= n < Pow(2, BitLen(n))
  {
    if n > 1 {
      BitLenBounds(n / 2);
    }
  }

  lemma {:induction false} PowMonotone(b: nat, d: nat, e: nat)
    requires b >= 1 && d <= e
    ensures Pow(b, d) <= Pow(b, e) && Pow(b, d) >= 1
    decreases e
  {
    if d < e {
      PowMonotone(b, d, e - 1);
      assert Pow(b, e) == b * Pow(b, e - 1) >= Pow(b, e - 1);
    } else if e > 0 {
      PowMonotone(b, e - 1, e - 1);
    }
  }

  lemma BitLenExact(n: nat, k: nat)
    requires k >= 1 && Pow(2, k - 1) <= n < Pow(2, k)
    ensures BitLen(n) == k
  {
    hide Pow, BitLen;
    PowMonotone(2, 0, k - 1);
    BitLenBounds(n);
    if BitLen(n) < k {
      PowMonotone(2, BitLen(n), k - 1);
    } else {
      PowMonotone(2, k, BitLen(n));
      if BitLen(n) > k {
        PowMonotone(2, k, BitLen(n) - 1);
      }
    }
  }

  lemma {:induction false} PowOfBytes(k: nat)
    ensures Pow(0x100, k) == Pow(2, 8 * k)
  {
    if k > 0 {
      PowOfBytes(k - 1);
      var p := Pow(2, 8 * (k - 1));
      assert Pow(2, 8 * k - 7) == 2 * p && Pow(2, 8 * k - 6) == 4 * p && Pow(2, 8 * k - 5) == 8 * p
          && Pow(2, 8 * k - 4) == 16 * p && Pow(2, 8 * k - 3) == 32 * p && Pow(2, 8 * k - 2) == 64 * p
          && Pow(2, 8 * k - 1) == 128 * p && Pow(2, 8 * k) == 256 * p;
    }
  }

  lemma {:induction false} ValueOfFirst(s: seq<byte>)
    requires s != []
    ensures Value(s) == s[0] * Pow(0x100, |s| - 1) + Value(s[1..])
    decreases |s|
  {
    if |s| > 1 {
      var init, last := s[..|s| - 1], s[|s| - 1];
      var p, rest := Pow(0x100, |s| - 2), Value(init[1..]);
      assert Value(s) == Value(init) * 0x100 + last && Pow(0x100, |s| - 1) == 0x100 * p;
      assert Value(s[1..]) == rest * 0x100 + last by {
        assert s[1..][..|s| - 2] == init[1..];
      }
      hide Pow, Value;
      ValueOfFirst(init);
      MoveFactor(s[0], p, rest);
    }
  }

  lemma MoveFactor(x: nat, p: nat, r: nat)
    ensures (x * p + r) * 0x100 == x * (0x100 * p) + r * 0x100
  {
  }

  /** A block with a leading zero byte is always below a modulus of its length. */
  lemma LeadingZeroBelowModulus(block: seq<byte>, n: nat)
    requires n > 0 && |block| == ModulusBytes(n) && block != [] && block[0] == 0
    ensures Value(block) < n
  {
    hide Value, Pow, BitLen;
    var k := |block|;
    ValueOfFirst(block);
    ValueBound(block[1..]);
    BitLenBounds(n);
    PowOfBytes(k - 1);
    PowMonotone(2, 8 * (k - 1), BitLen(n) - 1);
  }

  /** The block starting 0x41 0x17: below the modulus for whole-byte bit lengths, above it otherwise save one. */
  lemma WrongStartVersusModulus(block: seq<byte>, n: nat)
    requires n > 0 && |block| == ModulusBytes(n) && |block| >= 2 && block[0] == 0x41
    ensures BitLen(n) % 8 == 0 ==> Value(block) < n
    ensures BitLen(n) % 8 in {1, 2, 3, 4, 5, 6} ==> Value(block) > n
  {
    hide Pow, Value, BitLen;
    var k := |block|;
    var p := Pow(0x100, k - 1);
    ValueOfFirst(block);
    ValueBound(block[1..]);
    assert 0x41 * p <= Value(block) < 0x42 * p;
    BitLenBounds(n);
    PowOfBytes(k - 1);
    EightDoublings(k);
    if BitLen(n) % 8 == 0 {
      assert BitLen(n) - 1 == 8 * (k - 1) + 7;
    } else if BitLen(n) % 8 <= 6 {
      PowMonotone(2, BitLen(n), 8 * (k - 1) + 6);
      PowMonotone(2, 0, 8 * (k - 1));
    }
  }

  lemma EightDoublings(k: nat)
    requires k >= 1
    ensures Pow(2, 8 * (k - 1) + 6) == 64 * Pow(2, 8 * (k - 1)) && Pow(2, 8 * (k - 1) + 7) == 128 * Pow(2, 8 * (k - 1))
  {
    var d := 8 * (k - 1);
    assert Pow(2, d + 1) == 2 * Pow(2, d) && Pow(2, d + 2) == 4 * Pow(2, d) && Pow(2, d + 3) == 8 * Pow(2, d)
        && Pow(2, d + 4) == 16 * Pow(2, d) && Pow(2, d + 5) == 32 * Pow(2, d);
  }

  /** A modulus has 11 bytes, the least every vector needs, from 2^80 on. */
  lemma PowTen()
    ensures Pow(2, 10) == 0x400
  {
  }

  lemma ElevenBytesIff(n: nat)
    requires n > 0
    ensures ModulusBytes(n) >= 11 <==> n >= 0x1_0000_0000_0000_0000_0000
  {
    hide Pow, BitLen;
    BitLenBounds(n);
    PowTen();
    PowAdd(2, 10, 10);
    PowAdd(2, 20, 20);
    PowAdd(2, 40, 40);
    if BitLen(n) <= 80 {
      PowMonotone(2, BitLen(n), 80);
    } else {
      PowMonotone(2, 80, BitLen(n) - 1);
    }
  }

  // ----- encryption -----

  /** big.Int.Bytes: big-endian without leading zeros. */
  function MinimalBytes(n: nat): seq<byte> {
    if n == 0 then [] else MinimalBytes(n / 0x100) + [n % 0x100]
  }

  lemma {:induction false} PaddedMinimalBytes(n: nat, k: nat)
    requires n < Pow(0x100, k)
    ensures |MinimalBytes(n)| <= k && Fill(0, k - |MinimalBytes(n)|) + MinimalBytes(n) == BigEndian(n, k)
    decreases k
  {
    if k > 0 {
      PaddedMinimalBytes(n / 0x100, k - 1);
      if n == 0 {
        assert BigEndian(0, k - 1) == Fill(0, k - 1);
        assert BigEndian(0, k) == Fill(0, k);
      }
    }
  }

  /** m^e mod N as the k bytes that go on the wire. */
  function Ciphertext(pub: RsaKey, block: seq<byte>): seq<byte>
  {
    BigEndian(PowMod(Value(block), pub.e, pub.n), ModulusBytes(pub.n))
  }

  lemma ModulusFits(n: nat)
    requires n > 0
    ensures n <= Pow(0x100, ModulusBytes(n)) && ModulusBytes(n) >= 1
  {
    BitLenBounds(n);
    PowOfBytes(ModulusBytes(n));
    PowMonotone(2, BitLen(n), 8 * ModulusBytes(n));
  }

  function PowMod(m: nat, e: nat, n: nat): (r: nat)
    requires n > 0
    ensures r < n
  {
    Pow(m, e) % n
  }

  /** left-padding to k bytes, in a fresh buffer. */
  method LeftPad(out: seq<byte>, k: nat) returns (padded: seq<byte>)
    requires |out| <= k
    ensures padded == Fill(0, k - |out|) + out
  {
    if |out| < k {
      var buf := new byte[k](_ => 0);
      forall i | 0 <= i < |out| {
        buf[k - |out| + i] := out[i];
      }
      return buf[..];
    }
    return out;
  }

  /** The result is always k bytes, and as a number it is m^e mod N. */
  method RsaEncrypt(pub: RsaKey, block: seq<byte>) returns (out: seq<byte>)
    ensures |out| == ModulusBytes(pub.n) && Value(out) == PowMod(Value(block), pub.e, pub.n)
    ensures out == Ciphertext(pub, block)
  {
    hide Pow, Value, BitLen, BigEndian, MinimalBytes, PowMod;
    var k := (BitLen(pub.n) + 7) / 8;
    var m := Value(block);
    var power := PowMod(m, pub.e, pub.n);
    ModulusFits(pub.n);
    PaddedMinimalBytes(power, k);
    ValueOfBigEndian(power, k);
    out := LeftPad(MinimalBytes(power), k);
  }

  /** d undoes e modulo n. */
  ghost predicate RsaInverse(pub: RsaKey, d: nat)
  {
    forall m: nat :: m < pub.n ==> PowMod(PowMod(m, pub.e, pub.n), d, pub.n) == m
  }

  function ServerDecrypts(pub: RsaKey, d: nat, cipher: seq<byte>): (block: seq<byte>)
    ensures |block| == ModulusBytes(pub.n)
  {
    BigEndian(PowMod(Value(cipher), d, pub.n), ModulusBytes(pub.n))
  }

  lemma Regroup(q: nat, t: nat, r: nat, n: nat, b: nat, u: nat)
    requires r * b == t * n + u
    ensures (q * n + r) * b == (q * b + t) * n + u
  {
    assert (q * n + r) * b == q * b * n + r * b;
  }

  lemma ModFactor(a: nat, b: nat, n: nat)
    requires n > 0
    ensures (a * b) % n == ((a % n) * b) % n
  {
    var q, r := a / n, a % n;
    var rb := r * b;
    var t, u := rb / n, rb % n;
    Regroup(q, t, r, n, b, u);
    ModUnique(a * b, q * b + t, u, n);
  }

  /** Only the residue of the base matters. */
  lemma {:induction false} PowModResidue(m: nat, e: nat, n: nat)
    requires n > 0
    ensures PowMod(m, e, n) == PowMod(m % n, e, n)
    decreases e
  {
    if e > 0 {
      PowModResidue(m, e - 1, n);
      var p, q := Pow(m, e - 1), Pow(m % n, e - 1);
      ModFactor(m, p, n);
      ModFactor(p, m % n, n);
      ModFactor(q, m % n, n);
      assert (m % n) * p == p * (m % n) && (m % n) * q == q * (m % n);
    }
  }

  lemma RecoveringKey(n: nat, e: nat, d: nat, b: nat)
    requires Recovers(n, e * d, b)
    ensures RsaInverse(RsaPublicKey(n, e), d)
  {
    hide Pow;
    forall m: nat | m < n ensures PowMod(PowMod(m, e, n), d, n) == m {
      PowModResidue(Pow(m, e), d, n);
      PowTimes(m, e, d);
      CongruentRemainder(Pow(m, e * d), m, n);
    }
  }

  /** Every two-prime key whose exponents multiply to 1 modulo p - 1 and q - 1 has the inverse. */
  lemma TwoPrimeKey(p: nat, q: nat, e: nat, d: nat, s: nat, t: nat)
    requires Prime(p) && Prime(q) && p != q && p * q > 0
    requires e * d == 1 + (p - 1) * s == 1 + (q - 1) * t
    ensures RsaInverse(RsaPublicKey(p * q, e), d)
  {
    hide Prime, Pow;
    forall m: nat | m < p * q ensures PowMod(PowMod(m, e, p * q), d, p * q) == m {
      PowModResidue(Pow(m, e), d, p * q);
      ExponentsCancel(p, q, e, d, m, s, t);
    }
  }

  /** A server holding the inverse recovers the block reduced modulo N, whatever the block. */
  lemma DecryptsToResidue(pub: RsaKey, d: nat, block: seq<byte>)
    requires RsaInverse(pub, d)
    ensures ServerDecrypts(pub, d, Ciphertext(pub, block)) == BigEndian(Value(block) % pub.n, ModulusBytes(pub.n))
  {
    ModulusFits(pub.n);
    hide PowMod, BigEndian, Value, BitLen;
    var power := PowMod(Value(block), pub.e, pub.n);
    ValueOfBigEndian(power, ModulusBytes(pub.n));
    PowModResidue(Value(block), pub.e, pub.n);
  }

  /** Below the modulus that is the exact block. */
  lemma DecryptsToBlock(pub: RsaKey, d: nat, block: seq<byte>)
    requires RsaInverse(pub, d) && |block| == ModulusBytes(pub.n) && Value(block) < pub.n
    ensures ServerDecrypts(pub, d, Ciphertext(pub, block)) == block
  {
    hide ServerDecrypts, Ciphertext, BigEndian, Value;
    DecryptsToResidue(pub, d, block);
    ModUnique(Value(block), 0, Value(block), pub.n);
    BigEndianOfValue(block);
  }

  // ----- the five blocks -----

  datatype VectorKind = Correct | WrongFirstBytes | NoZero | ZeroInPadding | WrongVersion

  const ALL_VECTORS: seq<VectorKind> := [Correct, WrongFirstBytes, NoZero, ZeroInPadding, WrongVersion]

  /** Padding length, clamped as the builder does for blocks too short for the message. */
  function PaddingLength(k: nat, messageLength: nat): nat {
    if k < 3 + messageLength + 8 then 8 else k - 3 - messageLength
  }

  /** The shortest block the builder's slice expressions are in range for. */
  function MinBlock(kind: VectorKind): nat {
    match kind
    case NoZero => 2
    case ZeroInPadding => 5
    case _ => 11
  }

  /** Two leading bytes, non-zero padding, a zero delimiter, and as much of m as fits. */
  function Framed(b0: byte, b1: byte, k: nat, m: seq<byte>): (block: seq<byte>)
    requires k >= 11
    ensures |block| == k
  {
    [b0, b1] + Fill(0xff, PaddingLength(k, |m|)) + [0x00] + m[..k - 3 - PaddingLength(k, |m|)]
  }

  function WithVersion(pms: seq<byte>, version: seq<byte>): (m: seq<byte>)
    requires |version| == 2
    ensures |m| == |pms|
  {
    if |pms| < 2 then pms else version + pms[2..]
  }

  function VectorBlock(kind: VectorKind, k: nat, pms: seq<byte>): (block: seq<byte>)
    requires k >= MinBlock(kind)
    ensures |block| == k
  {
    match kind
    case Correct => Framed(0x00, 0x02, k, pms)
    case WrongFirstBytes => Framed(0x41, 0x17, k, pms)
    case NoZero => [0x00, 0x02] + Fill(0xff, k - 2)
    case ZeroInPadding => [0x00, 0x02, 0xff, 0xff, 0x00] + Fill(0xff, k - 5)
    case WrongVersion => Framed(0x00, 0x02, k, WithVersion(pms, [0x02, 0x02]))
  }

  /** fillNonZero on block[from..to]. */
  method FillNonZero(block: array<byte>, from: nat, to: nat)
    requires from <= to <= block.Length
    modifies block
    ensures block[..] == old(block[..from]) + Fill(0xff, to - from) + old(block[to..])
  {
    for i := from to to
      invariant block[..from] == old(block[..from]) && block[to..] == old(block[to..])
      invariant block[from..i] == Fill(0xff, i - from)
    {
      block[i] := 0xff;
      assert block[from..i + 1] == block[from..i] + [0xff];
    }
    assert block[..] == block[..from] + block[from..to] + block[to..];
  }

  /** copy(block[from..], src): as much of src as the block has room for. */
  method CopyInto(block: array<byte>, from: nat, src: seq<byte>)
    requires from <= block.Length <= from + |src|
    modifies block
    ensures block[..] == old(block[..from]) + src[..block.Length - from]
  {
    forall i | from <= i < block.Length {
      block[i] := src[i - from];
    }
  }

  /** Header, padding, delimiter and message, written in place. */
  method WriteFramed(block: array<byte>, b0: byte, b1: byte, psLen: nat, m: seq<byte>)
    requires 3 + psLen <= block.Length <= 3 + psLen + |m|
    modifies block
    ensures block[..] == [b0, b1] + Fill(0xff, psLen) + [0x00] + m[..block.Length - 3 - psLen]
  {
    block[0], block[1] := b0, b1;
    FillNonZero(block, 2, 2 + psLen);
    block[2 + psLen] := 0x00;
    assert block[..3 + psLen] == [b0, b1] + Fill(0xff, psLen) + [0x00];
    CopyInto(block, 3 + psLen, m);
  }

  /** None stands for the panic of a slice expression that is out of range. */
  method WriteEarlyZero(block: array<byte>)
    requires block.Length >= 5
    modifies block
    ensures block[..] == [0x00, 0x02, 0xff, 0xff, 0x00] + Fill(0xff, block.Length - 5)
  {
    block[0], block[1] := 0x00, 0x02;
    FillNonZero(block, 2, block.Length);
    block[4] := 0x00;
  }

  method BuildPkcs1Vector(kind: VectorKind, k: nat, pms: seq<byte>) returns (built: Option<array<byte>>)
    ensures built.None? <==> k < MinBlock(kind)
    ensures built.Some? ==> fresh(built.value) && built.value[..] == VectorBlock(kind, k, pms)
  {
    if k < MinBlock(kind) {
      return None;
    }
    var block := new byte[k](_ => 0);
    var psLen: int := k - 3 - |pms|;
    if psLen < 8 {
      psLen := 8;
    }
    assert psLen == PaddingLength(k, |pms|);
    hide PaddingLength;
    match kind {
      case Correct =>
        WriteFramed(block, 0x00, 0x02, psLen, pms);
      case WrongFirstBytes =>
        FillNonZero(block, 0, k);
        WriteFramed(block, 0x41, 0x17, psLen, pms);
      case NoZero =>
        block[0], block[1] := 0x00, 0x02;
        FillNonZero(block, 2, k);
      case ZeroInPadding =>
        WriteEarlyZero(block);
      case WrongVersion =>
        var wrong := pms;
        if |wrong| >= 2 {
          wrong := wrong[0 := 0x02][1 := 0x02];
        }
        assert wrong == WithVersion(pms, [0x02, 0x02]);
        WriteFramed(block, 0x00, 0x02, psLen, wrong);
    }
    return Some(block);
  }

  // ----- what a server reads: section 7.2.2 of RFC 8017, section 7.4.7.1 of RFC 5246 -----

  /** The first zero byte at or after i, or the length. */
  function FirstZero(s: seq<byte>, i: nat): (z: nat)
    requires i <= |s|
    ensures i <= z <= |s| && (z < |s| ==> s[z] == 0) && forall j :: i <= j < z ==> s[j] != 0
    decreases |s| - i
  {
    if i == |s| || s[i] == 0 then i else FirstZero(s, i + 1)
  }

  function DecodeBlock(block: seq<byte>): Option<seq<byte>> {
    if |block| < 11 || block[0] != 0x00 || block[1] != 0x02 then None
    else
      var z := FirstZero(block, 2);
      if z == |block| || z - 2 < 8 then None else Some(block[z + 1..])
  }

  datatype Premaster = BadFraming | BadVersion | Good(pms: seq<byte>)

  function ReadPremaster(block: seq<byte>): Premaster {
    match DecodeBlock(block)
    case None => BadFraming
    case Some(m) =>
      if |m| != 48 then BadFraming else if m[..2] != [0x03, 0x03] then BadVersion else Good(m)
  }

  /** A framed block decodes to the message, or to what the clamp left of it. */
  lemma FramedDecodes(k: nat, m: seq<byte>)
    requires k >= 11
    ensures DecodeBlock(Framed(0x00, 0x02, k, m)) == Some(if k >= |m| + 11 then m else m[..k - 11])
  {
    var block := Framed(0x00, 0x02, k, m);
    var n := PaddingLength(k, |m|);
    assert block[2 + n] == 0;
    assert forall j :: 2 <= j < 2 + n ==> block[j] == 0xff;
    assert FirstZero(block, 2) == 2 + n;
    assert block[3 + n..] == m[..k - 3 - n];
    assert m[..|m|] == m;
  }

  lemma BadlyFramed(k: nat, pms: seq<byte>)
    requires k >= 11
    ensures DecodeBlock(VectorBlock(WrongFirstBytes, k, pms)).None?
    ensures DecodeBlock(VectorBlock(NoZero, k, pms)).None?
    ensures DecodeBlock(VectorBlock(ZeroInPadding, k, pms)).None?
  {
    var none, early := VectorBlock(NoZero, k, pms), VectorBlock(ZeroInPadding, k, pms);
    assert forall j :: 2 <= j < k ==> none[j] == 0xff;
    assert FirstZero(none, 2) == k;
    assert early[4] == 0 && early[2] == 0xff && early[3] == 0xff;
    assert FirstZero(early, 2) == 4;
  }

  /** The decoder returns the premaster of the correct block, and rejects the three badly framed ones. */
  lemma BlocksDecode(k: nat, pms: seq<byte>)
    requires |pms| == 48 && pms[..2] == [0x03, 0x03] && k >= |pms| + 11
    ensures DecodeBlock(VectorBlock(Correct, k, pms)) == Some(pms)
    ensures DecodeBlock(VectorBlock(WrongFirstBytes, k, pms)).None?
    ensures DecodeBlock(VectorBlock(NoZero, k, pms)).None?
    ensures DecodeBlock(VectorBlock(ZeroInPadding, k, pms)).None?
    ensures DecodeBlock(VectorBlock(WrongVersion, k, pms)) == Some([0x02, 0x02] + pms[2..])
  {
    FramedDecodes(k, pms);
    FramedDecodes(k, WithVersion(pms, [0x02, 0x02]));
    BadlyFramed(k, pms);
  }

  /** What the server makes of each block; a block too short for the premaster truncates it. */
  function ReadAs(kind: VectorKind, k: nat, pms: seq<byte>): Premaster {
    match kind
    case Correct => if k >= 59 then Good(pms) else BadFraming
    case WrongVersion => if k >= 59 then BadVersion else BadFraming
    case _ => BadFraming
  }

  lemma BlockOutcome(kind: VectorKind, k: nat, pms: seq<byte>)
    requires |pms| == 48 && pms[..2] == [0x03, 0x03] && k >= MinBlock(kind)
    ensures ReadPremaster(VectorBlock(kind, k, pms)) == ReadAs(kind, k, pms)
  {
    var wrong := WithVersion(pms, [0x02, 0x02]);
    assert wrong[..2] == [0x02, 0x02] && wrong[0] == 0x02 && pms[..2][0] == 0x03;
    if k >= 11 {
      hide VectorBlock, DecodeBlock, WithVersion, Framed;
      FramedDecodes(k, pms);
      FramedDecodes(k, wrong);
      BadlyFramed(k, pms);
      FramedVectors(k, pms);
    }
  }

  lemma FramedVectors(k: nat, pms: seq<byte>)
    requires k >= 11
    ensures VectorBlock(Correct, k, pms) == Framed(0x00, 0x02, k, pms)
    ensures VectorBlock(WrongVersion, k, pms) == Framed(0x00, 0x02, k, WithVersion(pms, [0x02, 0x02]))
  {
  }

  /** The bytes of the five blocks: each malformed one departs from the first in its own way only. */
  lemma VectorBytes(k: nat, pms: seq<byte>)
    requires |pms| == 48 && k >= 59
    ensures var good, wrong := VectorBlock(Correct, k, pms), VectorBlock(WrongFirstBytes, k, pms);
            && good[0] == 0 && good[1] == 2 && (forall j :: 2 <= j < k - 49 ==> good[j] != 0) && good[k - 49] == 0
            && good[k - 48..] == pms
            && wrong[0] == 0x41 && wrong[1] == 0x17 && wrong[2..] == good[2..]
    ensures var none, early := VectorBlock(NoZero, k, pms), VectorBlock(ZeroInPadding, k, pms);
            && none[0] == 0 && none[1] == 2 && (forall j :: 2 <= j < k ==> none[j] != 0)
            && early[0] == 0 && early[1] == 2 && (forall j :: 2 <= j < k ==> (early[j] == 0 <==> j == 4))
    ensures var good, old' := VectorBlock(Correct, k, pms), VectorBlock(WrongVersion, k, pms);
            old'[..k - 48] == good[..k - 48] && old'[k - 48] == 2 && old'[k - 47] == 2 && old'[k - 46..] == good[k - 46..]
  {
    var wrong := WithVersion(pms, [0x02, 0x02]);
    assert wrong == [2, 2] + pms[2..];
    assert pms[..48] == pms && wrong[..48] == wrong;
  }

  /** The five blocks are pairwise distinct. */
  lemma BlocksDistinct(k: nat, pms: seq<byte>, a: VectorKind, b: VectorKind)
    requires |pms| == 48 && pms[..2] == [0x03, 0x03] && k >= |pms| + 11
    requires VectorBlock(a, k, pms) == VectorBlock(b, k, pms)
    ensures a == b
  {
    BlockOutcome(a, k, pms);
    BlockOutcome(b, k, pms);
    if ReadAs(a, k, pms) == BadFraming {
      assert VectorBlock(WrongFirstBytes, k, pms)[0] == 0x41 && VectorBlock(NoZero, k, pms)[0] == 0x00
          && VectorBlock(ZeroInPadding, k, pms)[0] == 0x00;
      assert VectorBlock(NoZero, k, pms)[4] == 0xff && VectorBlock(ZeroInPadding, k, pms)[4] == 0x00;
    }
  }

  /**
   Every vector through encryption and decryption, for every modulus the builder serves: the server
   reads the block reduced modulo N, which is the block itself except perhaps for the 0x41 0x17 one.
   */
  lemma VectorReadBack(pub: RsaKey, d: nat, kind: VectorKind, pms: seq<byte>)
    requires RsaInverse(pub, d) && ModulusBytes(pub.n) >= MinBlock(kind)
    requires |pms| == 48 && pms[..2] == [0x03, 0x03]
    ensures var k := ModulusBytes(pub.n);
            var block := VectorBlock(kind, k, pms);
            var read := ServerDecrypts(pub, d, Ciphertext(pub, block));
            && read == BigEndian(Value(block) % pub.n, k)
            && (kind != WrongFirstBytes || BitLen(pub.n) % 8 == 0 ==>
                 read == block && ReadPremaster(read) == ReadAs(kind, k, pms))
  {
    hide Value, BigEndian, BitLen, PowMod, ReadPremaster, ServerDecrypts, Ciphertext, RsaInverse, ReadAs;
    var k := ModulusBytes(pub.n);
    var block := VectorBlock(kind, k, pms);
    DecryptsToResidue(pub, d, block);
    if kind != WrongFirstBytes || BitLen(pub.n) % 8 == 0 {
      if kind == WrongFirstBytes {
        assert block[0] == 0x41;
        WrongStartVersusModulus(block, pub.n);
      } else {
        assert block[0] == 0x00;
        LeadingZeroBelowModulus(block, pub.n);
      }
      DecryptsToBlock(pub, d, block);
      BlockOutcome(kind, k, pms);
    }
  }
}
