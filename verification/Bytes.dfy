/** Options, bytes, big-endian fields and the few sequence facts the other modules share. */
module Wrappers {
  datatype Option<+T> = None | Some(value: T)
}

module Bytes {
  type byte = x: int | 0 <= x < 0x100
  type uint16 = x: int | 0 <= x < 0x1_0000
  type uint64 = x: int | 0 <= x < 0x1_0000_0000_0000_0000

  /** n copies of b. */
  function Fill(b: byte, n: nat): (s: seq<byte>)
    ensures |s| == n && forall i :: 0 <= i < n ==> s[i] == b
  {
    seq(n, _ => b)
  }

  /** The bytes of an ASCII literal. */
  function Ascii(s: string): (b: seq<byte>)
    ensures |b| == |s|
  {
    seq(|s|, i requires 0 <= i < |s| => s[i] as int % 0x100)
  }

  // ----- fixed-width big-endian fields -----

  /** byte(n>>8), byte(n): the value is truncated to 16 bits, as Go's conversions do. */
  function U16(n: nat): (s: seq<byte>)
    ensures |s| == 2
  {
    [n / 0x100 % 0x100, n % 0x100]
  }

  /** byte(n>>16), byte(n>>8), byte(n). */
  function U24(n: nat): (s: seq<byte>)
    ensures |s| == 3
  {
    [n / 0x1_0000 % 0x100, n / 0x100 % 0x100, n % 0x100]
  }

  function GetU16(s: seq<byte>, p: nat): uint16
    requires p + 2 <= |s|
  {
    s[p] as int * 0x100 + s[p + 1] as int
  }

  function GetU24(s: seq<byte>, p: nat): (n: nat)
    requires p + 3 <= |s|
    ensures n < 0x100_0000
  {
    s[p] as int * 0x1_0000 + s[p + 1] as int * 0x100 + s[p + 2] as int
  }

  lemma LowBytes(n: nat)
    ensures n / 0x100 % 0x100 * 0x100 + n % 0x100 == n % 0x1_0000
  {
  }

  /** The most significant byte comes first. */
  lemma FieldValues(n: nat)
    ensures U16(n)[0] as int * 0x100 + U16(n)[1] as int == n % 0x1_0000
    ensures U24(n)[0] as int * 0x1_0000 + U24(n)[1] as int * 0x100 + U24(n)[2] as int == n % 0x100_0000
  {
    LowBytes(n);
    LowThreeBytes(n);
  }

  lemma LowThreeBytes(n: nat)
    ensures n / 0x1_0000 % 0x100 * 0x1_0000 + n / 0x100 % 0x100 * 0x100 + n % 0x100 == n % 0x100_0000
  {
    var m := n / 0x100;
    LowBytes(m);
    assert n / 0x1_0000 == m / 0x100;
    assert n % 0x100_0000 == m % 0x1_0000 * 0x100 + n % 0x100;
  }

  lemma U24RoundTrip(n: nat, before: seq<byte>, after: seq<byte>)
    requires n < 0x100_0000
    ensures GetU24(before + U24(n) + after, |before|) == n
  {
  }

  // ----- big-endian naturals of any width -----

  function Pow(b: nat, e: nat): nat {
    if e == 0 then 1 else b * Pow(b, e - 1)
  }

  /** The big-endian value of s (big.Int.SetBytes). */
  function Value(s: seq<byte>): nat {
    if s == [] then 0 else Value(s[..|s| - 1]) * 0x100 + s[|s| - 1]
  }

  /** The k low-order bytes of n, most significant first. */
  function BigEndian(n: nat, k: nat): (s: seq<byte>)
    ensures |s| == k
  {
    if k == 0 then [] else BigEndian(n / 0x100, k - 1) + [n % 0x100]
  }

  lemma {:induction false} ValueBound(s: seq<byte>)
    ensures Value(s) < Pow(0x100, |s|)
  {
    if s != [] {
      ValueBound(s[..|s| - 1]);
    }
  }

  lemma {:induction false} ValueOfBigEndian(n: nat, k: nat)
    requires n < Pow(0x100, k)
    ensures Value(BigEndian(n, k)) == n
  {
    if k > 0 {
      ValueOfBigEndian(n / 0x100, k - 1);
      assert BigEndian(n, k)[..k - 1] == BigEndian(n / 0x100, k - 1);
    }
  }

  lemma {:induction false} BigEndianOfValue(s: seq<byte>)
    ensures BigEndian(Value(s), |s|) == s
  {
    if s != [] {
      BigEndianOfValue(s[..|s| - 1]);
      assert s == s[..|s| - 1] + [s[|s| - 1]];
    }
  }

  lemma {:induction false} BigEndianInjective(m: nat, n: nat, k: nat)
    requires m < Pow(0x100, k) && n < Pow(0x100, k) && BigEndian(m, k) == BigEndian(n, k)
    ensures m == n
  {
    ValueOfBigEndian(m, k);
    ValueOfBigEndian(n, k);
  }

  // ----- exclusive or -----

  function XorBits(a: nat, b: nat, k: nat): nat {
    if k == 0 then 0 else (a + b) % 2 + 2 * XorBits(a / 2, b / 2, k - 1)
  }

  lemma {:induction false} XorBitsBound(a: nat, b: nat, k: nat)
    ensures XorBits(a, b, k) < Pow(2, k)
  {
    if k > 0 {
      XorBitsBound(a / 2, b / 2, k - 1);
    }
  }

  /** The low bit and the rest of an exclusive or. */
  lemma XorBitsParts(a: nat, b: nat, k: nat)
    requires k > 0
    ensures XorBits(a, b, k) % 2 == (a + b) % 2 && XorBits(a, b, k) / 2 == XorBits(a / 2, b / 2, k - 1)
  {
  }

  lemma {:induction false} XorBitsInvolution(a: nat, b: nat, k: nat)
    requires a < Pow(2, k)
    ensures XorBits(XorBits(a, b, k), b, k) == a
    decreases k
  {
    if k > 0 {
      hide XorBits, Pow;
      assert a / 2 < Pow(2, k - 1) by {
        PowOfTwoStep(k);
      }
      XorBitsParts(a, b, k);
      XorBitsParts(XorBits(a, b, k), b, k);
      XorBitsInvolution(a / 2, b / 2, k - 1);
      SameParts(XorBits(XorBits(a, b, k), b, k), a, b, XorBits(a, b, k));
    }
  }

  lemma PowOfTwoStep(k: nat)
    requires k > 0
    ensures Pow(2, k) == 2 * Pow(2, k - 1)
  {
  }

  lemma SameParts(y: nat, a: nat, b: nat, x: nat)
    requires y / 2 == a / 2 && y % 2 == (x + b) % 2 && x % 2 == (a + b) % 2
    ensures y == a
  {
  }

  lemma PowTwoPositive(j: nat)
    ensures Pow(2, j) > 0
  {
    if j > 0 {
      PowTwoPositive(j - 1);
    }
  }

  lemma HalfThen(a: nat, j: nat)
    requires j > 0
    ensures Pow(2, j) > 0 && Pow(2, j - 1) > 0 && a / Pow(2, j) == a / 2 / Pow(2, j - 1)
  {
    PowTwoPositive(j);
    PowTwoPositive(j - 1);
    PowOfTwoStep(j);
    DivideTwice(a, Pow(2, j - 1));
  }

  lemma DivideTwice(a: nat, p: nat)
    requires p > 0
    ensures a / (2 * p) == a / 2 / p
  {
    var q, r := a / 2 / p, a / 2 % p;
    assert a == 2 * (q * p + r) + a % 2;
    assert a == q * (2 * p) + (2 * r + a % 2);
    DivisionUnique(a, 2 * p, q, 2 * r + a % 2);
  }

  lemma TimesBounds(k: int, d: int)
    requires d > 0
    ensures k >= 1 ==> k * d >= d
    ensures k <= -1 ==> k * d <= -d
  {
    assert k * d == (k - 1) * d + d == (k + 1) * d - d;
  }

  lemma DivisionUnique(a: nat, d: nat, q: nat, r: nat)
    requires d > 0 && r < d && a == q * d + r
    ensures a / d == q
  {
    var k: int := a / d - q;
    assert k * d == r - a % d;
    TimesBounds(k, d);
  }

  lemma {:induction false} XorBitsAt(a: nat, b: nat, k: nat, j: nat)
    requires j < k
    ensures Pow(2, j) > 0 && XorBits(a, b, k) / Pow(2, j) % 2 == (a / Pow(2, j) + b / Pow(2, j)) % 2
    decreases k
  {
    hide XorBits;
    XorBitsParts(a, b, k);
    if j == 0 {
      assert Pow(2, 0) == 1;
    } else {
      hide Pow;
      HalfThen(XorBits(a, b, k), j);
      HalfThen(a, j);
      HalfThen(b, j);
      XorBitsAt(a / 2, b / 2, k - 1, j - 1);
    }
  }

  /** Combining with ones is the complement. */
  lemma {:induction false} XorBitsOnes(a: nat, k: nat)
    requires a < Pow(2, k)
    ensures Pow(2, k) >= 1 && XorBits(a, Pow(2, k) - 1, k) == Pow(2, k) - 1 - a
  {
    hide XorBits, Pow;
    PowTwoPositive(k);
    if k == 0 {
      NoBits(a);
    } else {
      PowOfTwoStep(k);
      XorBitsOnes(a / 2, k - 1);
      XorBitsParts(a, Pow(2, k) - 1, k);
      OddHalf(a, Pow(2, k - 1), XorBits(a, Pow(2, k) - 1, k));
    }
  }

  lemma NoBits(a: nat)
    ensures Pow(2, 0) == 1 && XorBits(a, 0, 0) == 0
  {
  }

  lemma OddHalf(a: nat, p: nat, x: nat)
    requires p >= 1 && a < 2 * p && x % 2 == (a + (2 * p - 1)) % 2
    ensures (2 * p - 1) / 2 == p - 1
    ensures x / 2 == p - 1 - a / 2 ==> x == 2 * p - 1 - a
  {
    assert (2 * p - 1) / 2 == p - 1;
    assert a == 2 * (a / 2) + a % 2 && x == 2 * (x / 2) + x % 2;
    assert x % 2 == 1 - a % 2;
  }

  function Xor(a: byte, b: byte): byte {
    XorBitsBound(a, b, 8);
    assert Pow(2, 8) == 0x100;
    XorBits(a, b, 8)
  }

  lemma XorParity(a: byte, b: byte)
    ensures Xor(a, b) % 2 == (a + b) % 2
  {
  }

  lemma XorInvolution(a: byte, b: byte)
    ensures Xor(Xor(a, b), b) == a
  {
    assert Pow(2, 8) == 0x100;
    XorBitsInvolution(a, b, 8);
  }

  lemma XorOnes(a: byte)
    ensures Xor(a, 0xff) == 0xff - a
  {
    assert Pow(2, 8) == 0x100;
    XorBitsOnes(a, 8);
  }

  // ----- concatenation -----

  function Flatten(ss: seq<seq<byte>>): seq<byte> {
    if ss == [] then [] else ss[0] + Flatten(ss[1..])
  }

  lemma {:induction false} FlattenConcat(xs: seq<seq<byte>>, ys: seq<seq<byte>>)
    ensures Flatten(xs + ys) == Flatten(xs) + Flatten(ys)
  {
    if xs == [] {
      assert xs + ys == ys;
    } else {
      FlattenConcat(xs[1..], ys);
      assert (xs + ys)[1..] == xs[1..] + ys && (xs + ys)[0] == xs[0];
      assert Flatten(xs + ys) == xs[0] + Flatten(xs[1..] + ys);
    }
  }
}
