/** A key of 480 bits with public exponent 65537, and the proof that decryption inverts encryption under it. */
module RsaKeys {
  import opened Bytes
  import opened Primitives
  import opened NumberTheory
  import opened Rsa

  /** The product of the primes from 1031 to 1367. */
  const KEY_N: nat :=
    0xf708b7370ab4778d19ce5eb2c9fd19f4872b7fc7655c9322a63ac69c6db5313738dfc899ed6dda116ae04b68d8f0156e368d90ca8c2711d98b5a9f6b
  const KEY_E: nat := 65537
  const KEY_D: nat := 0x3c7b4112cce1f93259ced4d4703419d6fd9ad49700d88fd5f2c7b481
  /** KEY_E * KEY_D, which is 1 modulo p - 1 for every prime p of the product */
  const KEY_ED: nat := 0x3c7b7d8e0df4c61453012ea345088a0b1771d231d56f90ae829da748b481

  lemma Primes1() returns (n: nat)
    ensures n == 0x192cf7597d954faabb75a852c4adc1d && Recovers(n, KEY_ED, 1098)
  {
    hide Recovers;
    RecoversOne(KEY_ED);
    n := 1;
    n := Extend(n, KEY_ED, 2, 1031);
    n := Extend(n, KEY_ED, 1032, 1033);
    n := Extend(n, KEY_ED, 1034, 1039);
    n := Extend(n, KEY_ED, 1040, 1049);
    n := Extend(n, KEY_ED, 1050, 1051);
    n := Extend(n, KEY_ED, 1052, 1061);
    n := Extend(n, KEY_ED, 1062, 1063);
    n := Extend(n, KEY_ED, 1064, 1069);
    n := Extend(n, KEY_ED, 1070, 1087);
    n := Extend(n, KEY_ED, 1088, 1091);
    n := Extend(n, KEY_ED, 1092, 1093);
    n := Extend(n, KEY_ED, 1094, 1097);
  }

  lemma Primes2() returns (n: nat)
    ensures n == 0x632c85491853ca21aa08fc001e14a9e19bb98d5e9fe38590482efb94f2ec1 && Recovers(n, KEY_ED, 1194)
  {
    hide Recovers;
    n := Primes1();
    n := Extend(n, KEY_ED, 1098, 1103);
    n := Extend(n, KEY_ED, 1104, 1109);
    n := Extend(n, KEY_ED, 1110, 1117);
    n := Extend(n, KEY_ED, 1118, 1123);
    n := Extend(n, KEY_ED, 1124, 1129);
    n := Extend(n, KEY_ED, 1130, 1151);
    n := Extend(n, KEY_ED, 1152, 1153);
    n := Extend(n, KEY_ED, 1154, 1163);
    n := Extend(n, KEY_ED, 1164, 1171);
    n := Extend(n, KEY_ED, 1172, 1181);
    n := Extend(n, KEY_ED, 1182, 1187);
    n := Extend(n, KEY_ED, 1188, 1193);
  }

  lemma Primes3() returns (n: nat)
    ensures n == 0x3e5a455eae08e88a5912aa7d06b9a6d8f3b459fe0b17ad585c1cdfc63c428f4e2f00463e4d96f4c9b2343732b1af && Recovers(n, KEY_ED, 1284)
  {
    hide Recovers;
    n := Primes2();
    n := Extend(n, KEY_ED, 1194, 1201);
    n := Extend(n, KEY_ED, 1202, 1213);
    n := Extend(n, KEY_ED, 1214, 1217);
    n := Extend(n, KEY_ED, 1218, 1223);
    n := Extend(n, KEY_ED, 1224, 1229);
    n := Extend(n, KEY_ED, 1230, 1231);
    n := Extend(n, KEY_ED, 1232, 1237);
    n := Extend(n, KEY_ED, 1238, 1249);
    n := Extend(n, KEY_ED, 1250, 1259);
    n := Extend(n, KEY_ED, 1260, 1277);
    n := Extend(n, KEY_ED, 1278, 1279);
    n := Extend(n, KEY_ED, 1280, 1283);
  }

  lemma Primes4() returns (n: nat)
    ensures n == 0xf708b7370ab4778d19ce5eb2c9fd19f4872b7fc7655c9322a63ac69c6db5313738dfc899ed6dda116ae04b68d8f0156e368d90ca8c2711d98b5a9f6b && Recovers(n, KEY_ED, 1368)
  {
    hide Recovers;
    n := Primes3();
    n := Extend(n, KEY_ED, 1284, 1289);
    n := Extend(n, KEY_ED, 1290, 1291);
    n := Extend(n, KEY_ED, 1292, 1297);
    n := Extend(n, KEY_ED, 1298, 1301);
    n := Extend(n, KEY_ED, 1302, 1303);
    n := Extend(n, KEY_ED, 1304, 1307);
    n := Extend(n, KEY_ED, 1308, 1319);
    n := Extend(n, KEY_ED, 1320, 1321);
    n := Extend(n, KEY_ED, 1322, 1327);
    n := Extend(n, KEY_ED, 1328, 1361);
    n := Extend(n, KEY_ED, 1362, 1367);
  }

  function DemoKey(): RsaKey {
    RsaPublicKey(KEY_N, KEY_E)
  }

  lemma DemoKeyInverse()
    ensures RsaInverse(DemoKey(), KEY_D)
  {
    var n := Primes4();
    assert n == KEY_N && KEY_E * KEY_D == KEY_ED;
    RecoveringKey(KEY_N, KEY_E, KEY_D, 1368);
  }

  /** The modulus has 60 whole bytes. */
  lemma DemoKeyLength()
    ensures BitLen(DemoKey().n) == 480
  {
    hide Pow, BitLen;
    PowTen();
    PowAdd(2, 10, 10);
    PowAdd(2, 20, 20);
    PowAdd(2, 40, 40);
    PowAdd(2, 80, 80);
    PowAdd(2, 160, 80);
    PowAdd(2, 240, 240);
    assert Pow(2, 480) == 0x1000000000000000000000000000000000000000000000000000000000000000000000000000000000000000000000000000000000000000000000000;
    PowAdd(2, 1, 479);
    PowOne(2);
    BitLenExact(DemoKey().n, 480);
  }
}
