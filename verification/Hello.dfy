/** Handshake messages: the hellos the client builds, and the server messages it picks apart. */
module Hello {
  import opened Bytes
  import opened Wrappers
  import opened Network
  import opened Primitives
  import opened Prf

  const CLIENT_HELLO: byte := 0x01
  const SERVER_HELLO: byte := 0x02
  const CERTIFICATE: byte := 0x0b
  const SERVER_KEY_EXCHANGE: byte := 0x0c
  const SERVER_HELLO_DONE: byte := 0x0e
  const CLIENT_KEY_EXCHANGE: byte := 0x10
  const FINISHED: byte := 0x14

  /** A handshake header: type and 24-bit length. */
  function WrapHandshake(msgType: byte, body: seq<byte>): (m: seq<byte>)
    ensures |m| == 4 + |body|
  {
    [msgType] + U24(|body|) + body
  }

  // ----- length-prefixed vectors: section 4.3 of RFC 5246 -----

  function Vec8(s: seq<byte>): Option<(seq<byte>, seq<byte>)> {
    if |s| < 1 || 1 + s[0] > |s| then None else Some((s[1..1 + s[0]], s[1 + s[0]..]))
  }

  function Vec16(s: seq<byte>): Option<(seq<byte>, seq<byte>)> {
    if |s| < 2 || 2 + GetU16(s, 0) > |s| then None
    else Some((s[2..2 + GetU16(s, 0)], s[2 + GetU16(s, 0)..]))
  }

  lemma Vec8RoundTrip(body: seq<byte>, rest: seq<byte>)
    requires |body| < 0x100
    ensures Vec8([|body|] + body + rest) == Some((body, rest))
  {
    var s := [|body|] + body + rest;
    assert s[1..1 + |body|] == body && s[1 + |body|..] == rest;
  }

  lemma Vec16RoundTrip(body: seq<byte>, rest: seq<byte>)
    requires |body| < 0x1_0000
    ensures Vec16(U16(|body|) + body + rest) == Some((body, rest))
  {
    var s := U16(|body|) + body + rest;
    assert GetU16(s, 0) == |body|;
    assert s[2..2 + |body|] == body && s[2 + |body|..] == rest;
  }

  // ----- lists of 16-bit values -----

  function EncodeU16s(xs: seq<uint16>): (s: seq<byte>)
    ensures |s| == 2 * |xs|
  {
    if xs == [] then [] else U16(xs[0]) + EncodeU16s(xs[1..])
  }

  function ParseU16s(s: seq<byte>): seq<uint16> {
    if |s| < 2 then [] else [GetU16(s, 0)] + ParseU16s(s[2..])
  }

  lemma {:induction false} U16sRoundTrip(xs: seq<uint16>)
    ensures ParseU16s(EncodeU16s(xs)) == xs
  {
    if xs != [] {
      U16sRoundTrip(xs[1..]);
      var s := EncodeU16s(xs);
      assert GetU16(s, 0) == xs[0] && s[2..] == EncodeU16s(xs[1..]);
    }
  }

  lemma {:induction false} EncodeU16sAppend(xs: seq<uint16>, x: uint16)
    ensures EncodeU16s(xs + [x]) == EncodeU16s(xs) + U16(x)
  {
    if xs == [] {
      assert EncodeU16s([x]) == U16(x) + EncodeU16s([]);
    } else {
      assert (xs + [x])[1..] == xs[1..] + [x];
      EncodeU16sAppend(xs[1..], x);
    }
  }

  // ----- extensions: section 7.4.1.4 of RFC 5246 -----

  datatype Extension = Extension(kind: uint16, data: seq<byte>)

  function EncodeExtension(e: Extension): seq<byte> {
    U16(e.kind) + U16(|e.data|) + e.data
  }

  function EncodeExtensions(es: seq<Extension>): seq<byte> {
    if es == [] then [] else EncodeExtension(es[0]) + EncodeExtensions(es[1..])
  }

  function ParseExtensions(s: seq<byte>): Option<seq<Extension>> {
    if s == [] then Some([])
    else if |s| < 4 then None
    else
      match Vec16(s[2..])
      case None => None
      case Some((data, rest)) =>
        match ParseExtensions(rest)
        case None => None
        case Some(es) => Some([Extension(GetU16(s, 0), data)] + es)
  }

  predicate DataFits(es: seq<Extension>) {
    forall i :: 0 <= i < |es| ==> |es[i].data| < 0x1_0000
  }

  lemma ParseExtensionStep(e: Extension, rest: seq<byte>)
    requires |e.data| < 0x1_0000
    ensures ParseExtensions(EncodeExtension(e) + rest) ==
            match ParseExtensions(rest) { case None => None case Some(es) => Some([e] + es) }
  {
    var s := EncodeExtension(e) + rest;
    assert GetU16(s, 0) == e.kind;
    assert s[2..] == U16(|e.data|) + e.data + rest;
    Vec16RoundTrip(e.data, rest);
  }

  lemma {:induction false} ExtensionsRoundTrip(es: seq<Extension>)
    requires DataFits(es)
    ensures ParseExtensions(EncodeExtensions(es)) == Some(es)
  {
    if es != [] {
      ExtensionsRoundTrip(es[1..]);
      ParseExtensionStep(es[0], EncodeExtensions(es[1..]));
      assert es == [es[0]] + es[1..];
    }
  }

  // ----- ClientHello -----

  /** A parsed ClientHello; extensions holds the raw extension block. */
  datatype ClientHello = ClientHello(
    version: uint16, random: seq<byte>, sessionId: seq<byte>, suites: seq<uint16>,
    compression: seq<byte>, extensions: Option<seq<byte>>)

  function ClientHelloBody(version: uint16, random: seq<byte>, suites: seq<uint16>, extensions: seq<byte>): seq<byte> {
    U16(version) + random + [0x00] + Offers(suites, extensions)
  }

  function Offers(suites: seq<uint16>, extensions: seq<byte>): seq<byte> {
    U16(2 * |suites|) + EncodeU16s(suites) + [0x01, 0x00]
    + ExtensionBlock(extensions)
  }

  function ExtensionBlock(extensions: seq<byte>): seq<byte> {
    if extensions == [] then [] else U16(|extensions|) + extensions
  }

  function ClientHelloRecord(recordVersion: uint16, version: uint16, random: seq<byte>,
                             suites: seq<uint16>, extensions: seq<byte>): (r: seq<byte>)
    ensures |r| >= 5
  {
    var message := WrapHandshake(CLIENT_HELLO, ClientHelloBody(version, random, suites, extensions));
    [HANDSHAKE_RECORD] + U16(recordVersion) + U16(|message|) + message
  }

  /** Section 7.4.1.2 of RFC 5246, every nested length checked; the record may exceed 2^14 bytes. */
  function ParseClientHello(record: seq<byte>): Option<ClientHello> {
    match Unwrap(record)
    case None => None
    case Some((contentType, message)) =>
      if contentType != 0x16 then None else ParseClientHelloMessage(message)
  }

  function ParseClientHelloBody(body: seq<byte>): Option<ClientHello> {
    if |body| < 34 then None
    else
      match Vec8(body[34..])
      case None => None
      case Some((sessionId, rest)) => ParseOffers(GetU16(body, 0), body[2..34], sessionId, rest)
  }

  /** Cipher suites, compression methods and the optional extension block. */
  function ParseOffers(version: uint16, random: seq<byte>, sessionId: seq<byte>, s: seq<byte>): Option<ClientHello> {
    match Vec16(s)
    case None => None
    case Some((suites, afterSuites)) =>
      match Vec8(afterSuites)
      case None => None
      case Some((compression, tail)) =>
        if |suites| % 2 != 0 then None
        else
          match ParseExtensionBlock(tail)
          case None => None
          case Some(extensions) =>
            Some(ClientHello(version, random, sessionId, ParseU16s(suites), compression, extensions))
  }

  function ParseExtensionBlock(tail: seq<byte>): Option<Option<seq<byte>>> {
    if tail == [] then Some(None)
    else
      match Vec16(tail)
      case None => None
      case Some((extensions, trailing)) => if trailing == [] then Some(Some(extensions)) else None
  }

  /** The length of the handshake message; its record can carry it below 2^16. */
  function ClientHelloLength(suites: nat, extensions: nat): nat {
    43 + 2 * suites + if extensions == 0 then 0 else 2 + extensions
  }

  lemma ClientHelloBodyParses(version: uint16, random: seq<byte>, suites: seq<uint16>, extensions: seq<byte>)
    requires |random| == 32 && ClientHelloLength(|suites|, |extensions|) < 0x1_0000
    ensures ParseClientHelloBody(ClientHelloBody(version, random, suites, extensions)) ==
            Some(ClientHello(version, random, [], suites, [0x00],
                             if extensions == [] then None else Some(extensions)))
  {
    hide Offers, ParseOffers;
    var body := ClientHelloBody(version, random, suites, extensions);
    var rest := Offers(suites, extensions);
    assert GetU16(body, 0) == version && body[2..34] == random;
    assert body[34..] == [0] + [] + rest;
    Vec8RoundTrip([], rest);
    OffersParse(version, random, suites, extensions);
  }

  lemma ExtensionBlockParses(extensions: seq<byte>)
    requires |extensions| < 0x1_0000
    ensures ParseExtensionBlock(ExtensionBlock(extensions)) ==
            Some(if extensions == [] then None else Some(extensions))
  {
    if extensions != [] {
      assert ExtensionBlock(extensions) == U16(|extensions|) + extensions + [];
      Vec16RoundTrip(extensions, []);
    }
  }

  lemma OffersShape(suites: seq<uint16>, extensions: seq<byte>)
    ensures Offers(suites, extensions) ==
            U16(|EncodeU16s(suites)|) + EncodeU16s(suites) + ([1, 0] + ExtensionBlock(extensions))
  {
  }

  lemma OffersSplit(suites: seq<uint16>, extensions: seq<byte>)
    requires 2 * |suites| < 0x1_0000
    ensures Vec16(Offers(suites, extensions)) == Some((EncodeU16s(suites), [1, 0] + ExtensionBlock(extensions)))
  {
    OffersShape(suites, extensions);
    Vec16RoundTrip(EncodeU16s(suites), [1, 0] + ExtensionBlock(extensions));
  }

  lemma CompressionSplit(tail: seq<byte>)
    ensures Vec8([1, 0] + tail) == Some(([0], tail))
  {
    assert [1, 0] + tail == [1] + [0] + tail;
    Vec8RoundTrip([0], tail);
  }

  lemma OffersParse(version: uint16, random: seq<byte>, suites: seq<uint16>, extensions: seq<byte>)
    requires 2 * |suites| < 0x1_0000 && |extensions| < 0x1_0000
    ensures ParseOffers(version, random, [], Offers(suites, extensions)) ==
            Some(ClientHello(version, random, [], suites, [0x00],
                             if extensions == [] then None else Some(extensions)))
  {
    hide Offers, EncodeU16s, ExtensionBlock, Vec16, Vec8, ParseExtensionBlock, ParseU16s, U16, GetU16;
    var offers, encoded, tail := Offers(suites, extensions), EncodeU16s(suites), ExtensionBlock(extensions);
    assert Vec16(offers) == Some((encoded, [1, 0] + tail)) by {
      OffersSplit(suites, extensions);
    }
    assert Vec8([1, 0] + tail) == Some(([0], tail)) by {
      CompressionSplit(tail);
    }
    assert ParseExtensionBlock(tail) == Some(if extensions == [] then None else Some(extensions)) by {
      ExtensionBlockParses(extensions);
    }
    assert |encoded| % 2 == 0 && ParseU16s(encoded) == suites by {
      U16sRoundTrip(suites);
    }
  }

  function ParseClientHelloMessage(message: seq<byte>): Option<ClientHello> {
    if |message| < 4 || message[0] != 0x01 || GetU24(message, 1) != |message| - 4 then None
    else ParseClientHelloBody(message[4..])
  }

  lemma UnwrapAtVersion(recordVersion: uint16, body: seq<byte>)
    ensures Unwrap([HANDSHAKE_RECORD] + U16(recordVersion) + U16(|body|) + body) ==
            if |body| < 0x1_0000 then Some((HANDSHAKE_RECORD, body)) else None
  {
    var record := [HANDSHAKE_RECORD] + U16(recordVersion) + U16(|body|) + body;
    assert record[5..] == body;
    assert GetU16(record, 3) == |body| / 0x100 % 0x100 * 0x100 + |body| % 0x100;
  }

  lemma WrapHandshakeParts(msgType: byte, body: seq<byte>)
    requires |body| < 0x100_0000
    ensures var m := WrapHandshake(msgType, body);
            m[0] == msgType && GetU24(m, 1) == |body| && m[4..] == body
  {
  }

  /** The builder's record parses back exactly when its 16-bit lengths can hold it. */
  lemma ClientHelloRoundTrip(recordVersion: uint16, version: uint16, random: seq<byte>,
                             suites: seq<uint16>, extensions: seq<byte>)
    requires |random| == 32
    ensures ParseClientHello(ClientHelloRecord(recordVersion, version, random, suites, extensions)) ==
            if ClientHelloLength(|suites|, |extensions|) < 0x1_0000
            then Some(ClientHello(version, random, [], suites, [0x00],
                                  if extensions == [] then None else Some(extensions)))
            else None
  {
    var body := ClientHelloBody(version, random, suites, extensions);
    var message := WrapHandshake(CLIENT_HELLO, body);
    assert |message| == ClientHelloLength(|suites|, |extensions|);
    UnwrapAtVersion(recordVersion, message);
    if |message| < 0x1_0000 {
      WrapHandshakeParts(CLIENT_HELLO, body);
      ClientHelloBodyParses(version, random, suites, extensions);
    }
  }

  /** The cipher_suites vector's content, two bytes per suite. */
  method SuiteBytes(suites: seq<uint16>) returns (sb: seq<byte>)
    ensures sb == EncodeU16s(suites)
  {
    sb := [];
    for i := 0 to |suites|
      invariant sb == EncodeU16s(suites[..i])
    {
      EncodeU16sAppend(suites[..i], suites[i]);
      assert suites[..i] + [suites[i]] == suites[..i + 1];
      sb := sb + U16(suites[i]);
    }
    assert suites[..|suites|] == suites;
  }

  lemma BodyShape(version: uint16, random: seq<byte>, suites: seq<uint16>, extensions: seq<byte>)
    ensures var sb := EncodeU16s(suites);
            U16(version) + random + [0x00] + U16(|sb|) + sb + [0x01, 0x00] + ExtensionBlock(extensions) ==
            ClientHelloBody(version, random, suites, extensions)
  {
  }

  /** The shared builder: 32 zero bytes of random, null compression. */
  method ClientHelloTls(recordVersion: uint16, clientVersion: uint16, suites: seq<uint16>, extensions: seq<byte>)
    returns (record: seq<byte>)
    ensures record == ClientHelloRecord(recordVersion, clientVersion, Fill(0, 32), suites, extensions)
  {
    var body := U16(clientVersion);
    body := body + Fill(0, 32);
    body := body + [0x00];
    var sb := SuiteBytes(suites);
    body := body + U16(|sb|);
    body := body + sb;
    body := body + [0x01, 0x00];
    if |extensions| > 0 {
      body := body + (U16(|extensions|) + extensions);
    }
    BodyShape(clientVersion, Fill(0, 32), suites, extensions);
    var message := WrapHandshake(CLIENT_HELLO, body);
    record := [HANDSHAKE_RECORD] + U16(recordVersion) + U16(|message|) + message;
  }

  // ----- server_name: section 3 of RFC 6066 -----

  const SERVER_NAME: uint16 := 0x0000

  /** A list of one host_name entry. */
  function ServerNameData(host: seq<byte>): seq<byte> {
    U16(3 + |host|) + [0x00] + U16(|host|) + host
  }

  function ParseServerName(data: seq<byte>): Option<seq<byte>> {
    match Vec16(data)
    case None => None
    case Some((list, trailing)) =>
      if trailing != [] || |list| < 1 || list[0] != 0x00 then None
      else
        match Vec16(list[1..])
        case None => None
        case Some((name, more)) => if more == [] then Some(name) else None
  }

  lemma ServerNameRoundTrip(host: seq<byte>)
    requires 3 + |host| < 0x1_0000
    ensures ParseServerName(ServerNameData(host)) == Some(host)
  {
    var list := [0x00] + U16(|host|) + host;
    assert ServerNameData(host) == U16(|list|) + list + [];
    Vec16RoundTrip(list, []);
    assert list[1..] == U16(|host|) + host + [];
    Vec16RoundTrip(host, []);
  }

  function ServerNameExtensions(host: seq<byte>): seq<Extension> {
    if host == [] then [] else [Extension(SERVER_NAME, ServerNameData(host))]
  }

  /** Entry, list and extension, innermost first; nothing at all for an empty host. */
  method SniExtension(host: seq<byte>) returns (ext: seq<byte>)
    ensures ext == EncodeExtensions(ServerNameExtensions(host))
  {
    if host == [] {
      return [];
    }
    var entry: seq<byte> := [0x00];
    entry := entry + U16(|host|);
    entry := entry + host;
    var list := U16(|entry|);
    list := list + entry;
    assert list == ServerNameData(host);
    ext := [0x00, 0x00];
    ext := ext + U16(|list|);
    ext := ext + list;
    var es := ServerNameExtensions(host);
    assert EncodeExtensions(es) == EncodeExtension(es[0]) + EncodeExtensions(es[1..]);
  }

  // ----- the CBC client's ClientHello -----

  const X25519: uint16 := 0x001d
  const SECP256R1: uint16 := 0x0017
  const SECP384R1: uint16 := 0x0018
  const SECP521R1: uint16 := 0x0019
  const CURVES: seq<uint16> := [X25519, SECP256R1, SECP384R1, SECP521R1]

  const GROUP_BYTES: seq<byte> := [0x00, 0x1d, 0x00, 0x17, 0x00, 0x18, 0x00, 0x19]
  const SIGNATURE_BYTES: seq<byte> :=
    [0x04, 0x01, 0x05, 0x01, 0x06, 0x01, 0x02, 0x01, 0x04, 0x03, 0x05, 0x03, 0x06, 0x03]

  function CbcExtensions(host: seq<byte>): seq<Extension> {
    ServerNameExtensions(host) +
    [Extension(0x000a, U16(8) + GROUP_BYTES),
     Extension(0x000b, [0x01, 0x00]),
     Extension(0x000d, U16(14) + SIGNATURE_BYTES)]
  }

  lemma EncodeCons(e: Extension, es: seq<Extension>)
    ensures EncodeExtensions([e] + es) == EncodeExtension(e) + EncodeExtensions(es)
  {
    assert ([e] + es)[1..] == es;
  }

  function FixedExtensions(): seq<byte> {
    EncodeExtension(Extension(0x000a, U16(8) + GROUP_BYTES)) + EncodeExtension(Extension(0x000b, [0x01, 0x00]))
    + EncodeExtension(Extension(0x000d, U16(14) + SIGNATURE_BYTES))
  }

  lemma CbcExtensionsSplit(host: seq<byte>)
    ensures EncodeExtensions(CbcExtensions(host)) == EncodeExtensions(ServerNameExtensions(host)) + FixedExtensions()
  {
    hide EncodeExtension, U16, ServerNameData, FixedExtensions;
    var a, b, c := Extension(0x000a, U16(8) + GROUP_BYTES), Extension(0x000b, [0x01, 0x00]),
                   Extension(0x000d, U16(14) + SIGNATURE_BYTES);
    FixedExtensionsEncode();
    if host == [] {
      assert CbcExtensions(host) == [a, b, c];
    } else {
      var name := Extension(SERVER_NAME, ServerNameData(host));
      EncodeCons(name, []);
      EncodeCons(name, [a, b, c]);
      assert [name] + [] == ServerNameExtensions(host);
    }
  }

  lemma CbcExtensionsLength(host: seq<byte>)
    ensures |EncodeExtensions(CbcExtensions(host))| == 40 + if host == [] then 0 else 9 + |host|
  {
    CbcExtensionsSplit(host);
    assert |FixedExtensions()| == 40;
    if host != [] {
      assert EncodeExtensions(ServerNameExtensions(host)[1..]) == [];
    }
  }

  lemma FixedExtensionsEncode()
    ensures EncodeExtensions([Extension(0x000a, U16(8) + GROUP_BYTES), Extension(0x000b, [0x01, 0x00]),
                              Extension(0x000d, U16(14) + SIGNATURE_BYTES)]) == FixedExtensions()
  {
    var a, b, c := Extension(0x000a, U16(8) + GROUP_BYTES), Extension(0x000b, [0x01, 0x00]),
                   Extension(0x000d, U16(14) + SIGNATURE_BYTES);
    EncodeCons(c, []);
    EncodeCons(b, [c]);
    EncodeCons(a, [b, c]);
    assert [c] + [] == [c] && [b] + [c] == [b, c] && [a] + [b, c] == [a, b, c];
  }

  lemma FixedExtensionsShape()
    ensures FixedExtensions() ==
            ([0x00, 0x0a] + U16(10) + U16(8) + GROUP_BYTES) + [0x00, 0x0b, 0x00, 0x02, 0x01, 0x00]
            + ([0x00, 0x0d] + U16(16) + U16(14) + SIGNATURE_BYTES)
  {
  }

  method CbcExtensionBlock(host: seq<byte>) returns (ext: seq<byte>)
    ensures ext == EncodeExtensions(CbcExtensions(host))
  {
    ext := SniExtension(host);
    var groups := GROUP_BYTES;
    var sg: seq<byte> := [0x00, 0x0a];
    sg := sg + U16(|groups| + 2);
    sg := sg + U16(|groups|);
    sg := sg + groups;
    ext := ext + sg;
    ext := ext + [0x00, 0x0b, 0x00, 0x02, 0x01, 0x00];
    var sigs := SIGNATURE_BYTES;
    var sa: seq<byte> := [0x00, 0x0d];
    sa := sa + U16(|sigs| + 2);
    sa := sa + U16(|sigs|);
    sa := sa + sigs;
    ext := ext + sa;
    FixedExtensionsShape();
    hide EncodeExtensions, FixedExtensions, CbcExtensions, ServerNameExtensions, GROUP_BYTES, SIGNATURE_BYTES;
    CbcExtensionsSplit(host);
  }

  function CbcClientHelloRecord(host: seq<byte>, clientRandom: seq<byte>): (r: seq<byte>)
    ensures |r| >= 5
  {
    ClientHelloRecord(TLS12, TLS12, clientRandom, CBC_SUITES, EncodeExtensions(CbcExtensions(host)))
  }

  method CbcClientHello(host: seq<byte>, clientRandom: seq<byte>) returns (record: seq<byte>)
    ensures record == CbcClientHelloRecord(host, clientRandom)
  {
    hide EncodeExtensions, CbcExtensions, EncodeU16s, ClientHelloBody, U16, WrapHandshake, WrapRecord;
    VersionBytes();
    var body: seq<byte> := [0x03, 0x03];
    body := body + clientRandom;
    body := body + [0x00];
    var sb := SuiteBytes(CBC_SUITES);
    body := body + U16(|sb|);
    body := body + sb;
    body := body + [0x01, 0x00];
    var ext := CbcExtensionBlock(host);
    CbcExtensionsLength(host);
    body := body + (U16(|ext|) + ext);
    BodyShape(TLS12, clientRandom, CBC_SUITES, ext);
    record := WrapRecord(HANDSHAKE_RECORD, WrapHandshake(CLIENT_HELLO, body));
    RecordShape(WrapHandshake(CLIENT_HELLO, body));
  }

  lemma VersionBytes()
    ensures U16(TLS12) == [0x03, 0x03]
  {
  }

  lemma RecordShape(message: seq<byte>)
    ensures WrapRecord(HANDSHAKE_RECORD, message) == [HANDSHAKE_RECORD] + U16(TLS12) + U16(|message|) + message
  {
  }

  /** The group list a server reads is the list of curves the client can use. */
  lemma GroupsParse()
    ensures ParseU16s(GROUP_BYTES) == CURVES
  {
    U16sRoundTrip(CURVES);
    assert EncodeU16s(CURVES[3..]) == U16(SECP521R1) + EncodeU16s(CURVES[3..][1..]);
    assert CURVES[2..][1..] == CURVES[3..] && CURVES[1..][1..] == CURVES[2..];
    assert EncodeU16s(CURVES[2..]) == U16(SECP384R1) + EncodeU16s(CURVES[3..]);
    assert EncodeU16s(CURVES[1..]) == U16(SECP256R1) + EncodeU16s(CURVES[2..]);
    assert EncodeU16s(CURVES) == GROUP_BYTES;
  }

  /**
   The longest host name whose ClientHello fits the 16-bit length of a record. The limit of 2^14
   bytes in section 6.2.1 of RFC 5246 is checked by neither end here.
   */
  const MAX_HOST: nat := 65433

  /**
   Section 7.4.1.2 of RFC 5246 and section 3 of RFC 6066 read back every field: version, random,
   suites, each extension, the host name and the two value lists.
   */
  lemma CbcClientHelloRoundTrip(host: seq<byte>, clientRandom: seq<byte>)
    requires |clientRandom| == 32
    ensures var hello := ParseClientHello(CbcClientHelloRecord(host, clientRandom));
            && (hello.Some? <==> |host| <= MAX_HOST)
            && (hello.Some? ==>
                 && hello.value.version == TLS12 && hello.value.random == clientRandom && hello.value.sessionId == []
                 && hello.value.suites == CBC_SUITES && hello.value.compression == [0x00]
                 && hello.value.extensions.Some?
                 && ParseExtensions(hello.value.extensions.value) == Some(CbcExtensions(host))
                 && (host != [] ==> ParseServerName(CbcExtensions(host)[0].data) == Some(host)))
  {
    hide ParseClientHello, ClientHelloRecord, EncodeExtensions, ParseExtensions, ParseServerName;
    var es := CbcExtensions(host);
    CbcExtensionsLength(host);
    ClientHelloRoundTrip(TLS12, TLS12, clientRandom, CBC_SUITES, EncodeExtensions(es));
    if |host| <= MAX_HOST {
      assert DataFits(es);
      ExtensionsRoundTrip(es);
      ServerNameRoundTrip(host);
    }
  }

  // ----- what a server reads out of a ClientHello, field by field -----

  /** The data of the first extension of a kind. */
  function FindExtension(es: seq<Extension>, kind: uint16): Option<seq<byte>> {
    if es == [] then None else if es[0].kind == kind then Some(es[0].data) else FindExtension(es[1..], kind)
  }

  /** Section 5.1.1 of RFC 8422: a list of 16-bit group numbers. */
  function ParseGroups(data: seq<byte>): Option<seq<uint16>> {
    match Whole(Vec16(data))
    case None => None
    case Some(list) => if |list| % 2 == 0 then Some(ParseU16s(list)) else None
  }

  function Pairs(s: seq<byte>): seq<(byte, byte)> {
    if |s| < 2 then [] else [(s[0], s[1])] + Pairs(s[2..])
  }

  /** Section 7.4.1.4.1 of RFC 5246: a list of pairs, the hash first and the signature second. */
  function ParseSignatureAlgorithms(data: seq<byte>): Option<seq<(byte, byte)>> {
    match Whole(Vec16(data))
    case None => None
    case Some(list) => if |list| % 2 == 0 then Some(Pairs(list)) else None
  }

  /** What a server has to choose from. */
  datatype Offer = Offer(
    version: uint16, random: seq<byte>, sessionId: seq<byte>, suites: seq<uint16>, compression: seq<byte>,
    serverName: Option<seq<byte>>, groups: Option<seq<uint16>>, pointFormats: Option<seq<byte>>,
    signatures: Option<seq<(byte, byte)>>, renegotiation: Option<seq<byte>>)

  function OfferOf(hello: ClientHello, es: seq<Extension>): Offer {
    Offer(hello.version, hello.random, hello.sessionId, hello.suites, hello.compression,
          Then(FindExtension(es, 0), ParseServerName), Then(FindExtension(es, 10), ParseGroups),
          Then(FindExtension(es, 11), (data: seq<byte>) => Whole(Vec8(data))),
          Then(FindExtension(es, 13), ParseSignatureAlgorithms),
          Then(FindExtension(es, 0xff01), (data: seq<byte>) => Whole(Vec8(data))))
  }

  function Then<T>(data: Option<seq<byte>>, parse: seq<byte> -> Option<T>): Option<T> {
    match data
    case None => None
    case Some(d) => parse(d)
  }

  /** A handshake record with a ClientHello, its extensions looked up by number. */
  function ReadOffer(record: seq<byte>): Option<Offer> {
    match ParseClientHello(record)
    case None => None
    case Some(hello) =>
      match hello.extensions
      case None => Some(OfferOf(hello, []))
      case Some(block) =>
        match ParseExtensions(block)
        case None => None
        case Some(es) => Some(OfferOf(hello, es))
  }

  lemma FixedListsParse()
    ensures ParseGroups(U16(8) + GROUP_BYTES) == Some([0x001d, 0x0017, 0x0018, 0x0019])
    ensures ParseSignatureAlgorithms(U16(14) + SIGNATURE_BYTES) ==
            Some([(4, 1), (5, 1), (6, 1), (2, 1), (4, 3), (5, 3), (6, 3)])
    ensures Whole(Vec8([0x01, 0x00])) == Some([0])
  {
    hide ParseU16s, Pairs;
    assert GROUP_BYTES + [] == GROUP_BYTES && SIGNATURE_BYTES + [] == SIGNATURE_BYTES;
    assert U16(8) + GROUP_BYTES == U16(|GROUP_BYTES|) + GROUP_BYTES + [];
    assert U16(14) + SIGNATURE_BYTES == U16(|SIGNATURE_BYTES|) + SIGNATURE_BYTES + [];
    Vec16RoundTrip(GROUP_BYTES, []);
    Vec16RoundTrip(SIGNATURE_BYTES, []);
    GroupsParse();
    PairsParse();
    assert [0x01, 0x00] == [|[0]|] + [0] + [];
    Vec8RoundTrip([0], []);
  }

  lemma PairsParse()
    ensures Pairs(SIGNATURE_BYTES) == [(4, 1), (5, 1), (6, 1), (2, 1), (4, 3), (5, 3), (6, 3)]
  {
    hide Pairs;
    var s := SIGNATURE_BYTES;
    PairsStep(s);
    PairsStep(s[2..]);
    PairsStep(s[2..][2..]);
    PairsStep(s[2..][2..][2..]);
    PairsStep(s[2..][2..][2..][2..]);
    PairsStep(s[2..][2..][2..][2..][2..]);
    PairsStep(s[2..][2..][2..][2..][2..][2..]);
    PairsStep(s[2..][2..][2..][2..][2..][2..][2..]);
  }

  lemma PairsStep(s: seq<byte>)
    ensures Pairs(s) == if |s| < 2 then [] else [(s[0], s[1])] + Pairs(s[2..])
  {
  }

  lemma FindInCbc(host: seq<byte>)
    ensures FindExtension(CbcExtensions(host), 0) == if host == [] then None else Some(ServerNameData(host))
    ensures FindExtension(CbcExtensions(host), 10) == Some(U16(8) + GROUP_BYTES)
    ensures FindExtension(CbcExtensions(host), 11) == Some([0x01, 0x00])
    ensures FindExtension(CbcExtensions(host), 13) == Some(U16(14) + SIGNATURE_BYTES)
    ensures FindExtension(CbcExtensions(host), 0xff01) == None
  {
    hide ServerNameData, FindExtension, U16;
    var es := CbcExtensions(host);
    FindSteps(es);
    if host != [] {
      FindSteps(es[3..]);
    }
  }

  /** The search through four extensions. */
  lemma FindSteps(es: seq<Extension>)
    ensures forall kind: uint16 ::
              FindExtension(es, kind) ==
              if |es| >= 1 && es[0].kind == kind then Some(es[0].data)
              else if |es| >= 2 && es[1].kind == kind then Some(es[1].data)
              else if |es| >= 3 && es[2].kind == kind then Some(es[2].data)
              else if |es| <= 3 then None
              else FindExtension(es[3..], kind)
  {
  }

  /** Everything the CBC client offers, for every host up to the bound, and nothing readable beyond it. */
  lemma CbcOffer(host: seq<byte>, clientRandom: seq<byte>)
    requires |clientRandom| == 32
    ensures ReadOffer(CbcClientHelloRecord(host, clientRandom)) ==
            if |host| <= MAX_HOST then
              Some(Offer(0x0303, clientRandom, [], [0xc013, 0xc014, 0x002f, 0x0035], [0],
                         if host == [] then None else Some(host), Some([0x001d, 0x0017, 0x0018, 0x0019]), Some([0]),
                         Some([(4, 1), (5, 1), (6, 1), (2, 1), (4, 3), (5, 3), (6, 3)]), None))
            else None
  {
    hide ParseClientHello, CbcClientHelloRecord, ParseExtensions, ParseServerName, ParseGroups, ParseSignatureAlgorithms,
         FindExtension, CbcExtensions, ServerNameData, U16, Vec8, Whole;
    CbcClientHelloRoundTrip(host, clientRandom);
    FixedListsParse();
    FindInCbc(host);
    if host != [] && |host| <= MAX_HOST {
      ServerNameRoundTrip(host);
    }
  }

  /** The extension is left out for the empty host name alone: a literal address is sent as any other name. */
  lemma ServerNameSent(host: seq<byte>)
    ensures EncodeExtensions(ServerNameExtensions(host)) == [] <==> host == []
  {
    if host != [] {
      assert ServerNameExtensions(host)[1..] == [];
    }
  }

  // ----- ServerHello -----

  datatype ServerHello = ServerHello(
    version: uint16, random: seq<byte>, sessionId: seq<byte>, suite: uint16, compression: byte,
    extensions: Option<seq<Extension>>)

  /** Section 7.4.1.3 of RFC 5246. */
  predicate WellFormed(sh: ServerHello) {
    && |sh.random| == 32 && |sh.sessionId| < 0x100
    && (sh.extensions.Some? ==> DataFits(sh.extensions.value) && |EncodeExtensions(sh.extensions.value)| < 0x1_0000)
  }

  function ServerHelloPrefix(sh: ServerHello): seq<byte>
    requires WellFormed(sh)
  {
    U16(sh.version) + sh.random + [|sh.sessionId|] + sh.sessionId + U16(sh.suite) + [sh.compression]
  }

  function EncodeServerHello(sh: ServerHello): seq<byte>
    requires WellFormed(sh)
  {
    WrapHandshake(0x02, ServerHelloPrefix(sh) +
      match sh.extensions
      case None => []
      case Some(es) => U16(|EncodeExtensions(es)|) + EncodeExtensions(es))
  }

  /** Whether an extension of the wanted type starts at p or, skipping whole extensions, before end. */
  predicate ScanExtensions(msg: seq<byte>, p: nat, end: nat, want: uint16)
    requires end <= |msg|
    decreases if p <= end then end - p else 0
  {
    p + 4 <= end && (GetU16(msg, p) == want || ScanExtensions(msg, p + 4 + GetU16(msg, p + 2), end, want))
  }

  predicate HasExtension(msg: seq<byte>, want: uint16) {
    if |msg| < 39 then false
    else
      var p: nat := 42 + msg[38] as int;
      if p + 2 > |msg| then false
      else
        var end := p + 2 + GetU16(msg, p);
        ScanExtensions(msg, p + 2, if end > |msg| then |msg| else end, want)
  }

  /** Total on every byte string: no index can leave it and the walk ends. */
  method ServerHelloHasExtension(msg: seq<byte>, wantExt: uint16) returns (found: bool)
    ensures found == HasExtension(msg, wantExt)
  {
    var p := 4;
    p := p + 2 + 32;
    if p + 1 > |msg| {
      return false;
    }
    var sidLen: int := msg[p];
    p := p + 1;
    p := p + sidLen;
    p := p + 2 + 1;
    if p > |msg| {
      return false;
    }
    if p + 2 > |msg| {
      return false;
    }
    var extTotal := GetU16(msg, p);
    p := p + 2;
    var end := p + extTotal;
    if end > |msg| {
      end := |msg|;
    }
    while p + 4 <= end
      invariant 0 <= p && HasExtension(msg, wantExt) == ScanExtensions(msg, p, end, wantExt)
      decreases end - p
    {
      var etype := GetU16(msg, p);
      var elen := GetU16(msg, p + 2);
      p := p + 4;
      if etype == wantExt {
        return true;
      }
      p := p + elen;
    }
    return false;
  }

  predicate Occurs(es: seq<Extension>, want: uint16) {
    exists i :: 0 <= i < |es| && es[i].kind == want
  }

  lemma ScanStep(before: seq<byte>, e: Extension, rest: seq<byte>, want: uint16)
    requires |e.data| < 0x1_0000
    ensures var msg := before + EncodeExtension(e) + rest;
            ScanExtensions(msg, |before|, |msg|, want) ==
            (e.kind == want || ScanExtensions(msg, |before + EncodeExtension(e)|, |msg|, want))
  {
    var msg := before + EncodeExtension(e) + rest;
    assert GetU16(msg, |before|) == e.kind && GetU16(msg, |before| + 2) == |e.data|;
  }

  lemma OccursStep(es: seq<Extension>, want: uint16)
    requires es != []
    ensures Occurs(es, want) == (es[0].kind == want || Occurs(es[1..], want))
  {
    if Occurs(es, want) && es[0].kind != want {
      var i :| 0 <= i < |es| && es[i].kind == want;
      assert es[1..][i - 1].kind == want;
    }
  }

  lemma {:induction false} ScanFindsExactly(before: seq<byte>, es: seq<Extension>, want: uint16)
    requires DataFits(es)
    ensures var msg := before + EncodeExtensions(es);
            ScanExtensions(msg, |before|, |msg|, want) <==> Occurs(es, want)
    decreases |es|
  {
    if es != [] {
      var rest := EncodeExtensions(es[1..]);
      assert before + EncodeExtensions(es) == before + EncodeExtension(es[0]) + rest;
      ScanStep(before, es[0], rest, want);
      OccursStep(es, want);
      ScanFindsExactly(before + EncodeExtension(es[0]), es[1..], want);
    }
  }

  /** Suite and server random, with the client's cursor arithmetic and bounds checks. */
  function ParseServerHelloSuite(msg: seq<byte>): Option<(uint16, seq<byte>)> {
    if 4 + 2 + 32 + 1 > |msg| then None
    else
      var p: nat := 39 + msg[38] as int;
      if p + 2 > |msg| then None else Some((GetU16(msg, p), msg[6..38]))
  }

  lemma ServerHelloLayout(sh: ServerHello)
    requires WellFormed(sh)
    ensures var msg, p := EncodeServerHello(sh), 39 + |sh.sessionId|;
            && |msg| >= p + 3 && msg[38] == |sh.sessionId| && msg[6..38] == sh.random && GetU16(msg, p) == sh.suite
            && (sh.extensions.None? ==> |msg| == p + 3)
            && (sh.extensions.Some? ==>
                 var block := EncodeExtensions(sh.extensions.value);
                 |msg| == p + 5 + |block| && GetU16(msg, p + 3) == |block| && msg == msg[..p + 5] + block)
  {
    hide EncodeExtensions, ServerHelloPrefix, WrapHandshake, U16, GetU16;
    var tail := match sh.extensions
      case None => []
      case Some(es) => U16(|EncodeExtensions(es)|) + EncodeExtensions(es);
    PrefixLayout(sh, tail);
    if sh.extensions.Some? {
      BlockLayout(EncodeServerHello(sh), 42 + |sh.sessionId|, EncodeExtensions(sh.extensions.value));
    }
  }

  lemma BlockLayout(msg: seq<byte>, p: nat, block: seq<byte>)
    requires p <= |msg| && |block| < 0x1_0000 && msg[p..] == U16(|block|) + block
    ensures |msg| == p + 2 + |block| && GetU16(msg, p) == |block| && msg == msg[..p + 2] + block
  {
    assert msg[p..][0] == msg[p] && msg[p..][1] == msg[p + 1];
    assert msg[p + 2..] == msg[p..][2..] == block;
  }

  lemma PrefixLayout(sh: ServerHello, tail: seq<byte>)
    requires WellFormed(sh)
    ensures var msg, p := WrapHandshake(SERVER_HELLO, ServerHelloPrefix(sh) + tail), 39 + |sh.sessionId|;
            && |msg| == p + 3 + |tail| && msg[38] == |sh.sessionId| && msg[6..38] == sh.random && GetU16(msg, p) == sh.suite
            && msg[p + 3..] == tail
  {
    var body := ServerHelloPrefix(sh);
    assert |body| == 38 + |sh.sessionId|;
  }

  lemma ExtensionBlockScanned(msg: seq<byte>, p: nat, es: seq<Extension>, want: uint16)
    requires DataFits(es) && |msg| == p + 2 + |EncodeExtensions(es)| && 39 <= |msg| && p == 42 + msg[38] as int
    requires GetU16(msg, p) == |EncodeExtensions(es)| && msg == msg[..p + 2] + EncodeExtensions(es)
    ensures HasExtension(msg, want) <==> Occurs(es, want)
  {
    hide EncodeExtensions, DataFits, GetU16, ScanExtensions, Occurs;
    ScanFindsExactly(msg[..p + 2], es, want);
  }

  /** On every well-formed ServerHello both parsers are exact. */
  lemma ServerHelloParsers(sh: ServerHello, want: uint16)
    requires WellFormed(sh)
    ensures HasExtension(EncodeServerHello(sh), want) <==> sh.extensions.Some? && Occurs(sh.extensions.value, want)
    ensures ParseServerHelloSuite(EncodeServerHello(sh)) == Some((sh.suite, sh.random))
  {
    hide EncodeServerHello, GetU16, EncodeExtensions, ScanExtensions, Occurs;
    var msg, p := EncodeServerHello(sh), 42 + |sh.sessionId|;
    ServerHelloLayout(sh);
    if sh.extensions.Some? {
      ExtensionBlockScanned(msg, p, sh.extensions.value, want);
    }
  }

  // ----- what the walk finds in any message -----

  /** The extension header reached after skipping k extensions from p lies before end and has the type. */
  predicate HeaderReached(msg: seq<byte>, p: nat, end: nat, want: uint16, k: nat)
    requires end <= |msg|
    decreases k
  {
    && p + 4 <= end
    && if k == 0 then msg[p] as int * 0x100 + msg[p + 1] as int == want
       else HeaderReached(msg, p + 4 + (msg[p + 2] as int * 0x100 + msg[p + 3] as int), end, want, k - 1)
  }

  ghost predicate Reaches(msg: seq<byte>, p: nat, end: nat, want: uint16)
    requires end <= |msg|
  {
    exists k: nat :: HeaderReached(msg, p, end, want, k)
  }

  lemma ReachesStep(msg: seq<byte>, p: nat, end: nat, want: uint16)
    requires p + 4 <= end <= |msg|
    ensures Reaches(msg, p, end, want) <==>
            msg[p] as int * 0x100 + msg[p + 1] as int == want
            || Reaches(msg, p + 4 + (msg[p + 2] as int * 0x100 + msg[p + 3] as int), end, want)
  {
    var next := p + 4 + (msg[p + 2] as int * 0x100 + msg[p + 3] as int);
    if Reaches(msg, p, end, want) {
      var k: nat :| HeaderReached(msg, p, end, want, k);
      assert k > 0 ==> HeaderReached(msg, next, end, want, k - 1);
    }
    if msg[p] as int * 0x100 + msg[p + 1] as int == want {
      assert HeaderReached(msg, p, end, want, 0);
    }
    if Reaches(msg, next, end, want) {
      var k: nat :| HeaderReached(msg, next, end, want, k);
      assert HeaderReached(msg, p, end, want, k + 1);
    }
  }

  lemma {:induction false} ScanReaches(msg: seq<byte>, p: nat, end: nat, want: uint16)
    requires end <= |msg|
    ensures ScanExtensions(msg, p, end, want) <==> Reaches(msg, p, end, want)
    decreases if p <= end then end - p else 0
  {
    if p + 4 <= end {
      ReachesStep(msg, p, end, want);
      ScanReaches(msg, p + 4 + GetU16(msg, p + 2), end, want);
    }
  }

  /**
   On every byte string: found exactly when an extension header of that type is reached between the
   start of the extension block, after a session id of the length in byte 38, and the block's end or
   the message's.
   */
  lemma HasExtensionExact(msg: seq<byte>, want: uint16)
    ensures HasExtension(msg, want) <==>
            && |msg| >= 39 && |msg| >= 44 + msg[38] as int
            && var start: nat := 44 + msg[38] as int;
               Reaches(msg, start, BlockEnd(msg, start), want)
  {
    hide ScanExtensions, Reaches;
    if |msg| >= 39 && |msg| >= 44 + msg[38] as int {
      var start: nat := 44 + msg[38] as int;
      ScanReaches(msg, start, BlockEnd(msg, start), want);
    }
  }

  /** Where the block that starts here ends, by the length before it, within the message. */
  function BlockEnd(msg: seq<byte>, start: nat): (end: nat)
    requires 2 <= start <= |msg|
    ensures end <= |msg|
  {
    var announced := start + (msg[start - 2] as int * 0x100 + msg[start - 1] as int);
    if announced > |msg| then |msg| else announced
  }

  /** Suite and random are read exactly when a session id of any length and a suite follow version and random. */
  lemma SuiteParseExact(msg: seq<byte>, suite: uint16, random: seq<byte>)
    ensures ParseServerHelloSuite(msg) == Some((suite, random)) <==>
            exists head, sessionId, rest ::
              && |head| == 6 && |random| == 32 && |sessionId| < 0x100
              && IsServerHelloPrefix(msg, head, random, sessionId, suite, rest)
  {
    if ParseServerHelloSuite(msg) == Some((suite, random)) {
      var n: nat := msg[38] as int;
      SuitePieces(msg, n);
      assert IsServerHelloPrefix(msg, msg[..6], random, msg[39..39 + n], suite, msg[41 + n..]);
    }
    forall head, sessionId, rest |
        |head| == 6 && |random| == 32 && |sessionId| < 0x100 && IsServerHelloPrefix(msg, head, random, sessionId, suite, rest)
      ensures ParseServerHelloSuite(msg) == Some((suite, random))
    {
      SuiteReadBack(msg, head, random, sessionId, suite, rest);
    }
  }

  predicate IsServerHelloPrefix(msg: seq<byte>, head: seq<byte>, random: seq<byte>,
                                sessionId: seq<byte>, suite: uint16, rest: seq<byte>)
    requires |sessionId| < 0x100
  {
    msg == head + random + [|sessionId|] + sessionId + U16(suite) + rest
  }

  lemma SuitePieces(msg: seq<byte>, n: nat)
    requires |msg| >= 41 + n && n == msg[38]
    ensures msg == msg[..6] + msg[6..38] + [n] + msg[39..39 + n] + U16(GetU16(msg, 39 + n)) + msg[41 + n..]
  {
    var suite := GetU16(msg, 39 + n);
    assert U16(suite) == msg[39 + n..41 + n];
  }

  lemma SuiteReadBack(msg: seq<byte>, head: seq<byte>, random: seq<byte>, sessionId: seq<byte>, suite: uint16, rest: seq<byte>)
    requires |head| == 6 && |random| == 32 && |sessionId| < 0x100
    requires IsServerHelloPrefix(msg, head, random, sessionId, suite, rest)
    ensures ParseServerHelloSuite(msg) == Some((suite, random))
  {
    var p := 39 + |sessionId|;
    assert msg[6..38] == random && msg[38] == |sessionId|;
    assert msg[p] == U16(suite)[0] && msg[p + 1] == U16(suite)[1];
  }

  // ----- Certificate and ServerKeyExchange -----

  /** The first certificate of a Certificate message, as far as the client checks the framing. */
  function LeafCertificate(msg: seq<byte>): Option<seq<byte>> {
    if |msg| < 10 || 7 + GetU24(msg, 4) > |msg| then None
    else
      var certLen := GetU24(msg, 7);
      if certLen <= 0 || 10 + certLen > |msg| then None else Some(msg[10..10 + certLen])
  }

  function LeafKey(c: Crypto, msg: seq<byte>): Option<RsaKey> {
    match LeafCertificate(msg)
    case None => None
    case Some(der) => c.leafKey(der)
  }

  /** Section 7.4.2 of RFC 5246. */
  function EncodeCertificates(certs: seq<seq<byte>>): seq<byte> {
    if certs == [] then [] else U24(|certs[0]|) + certs[0] + EncodeCertificates(certs[1..])
  }

  lemma LeafOfCertificate(certs: seq<seq<byte>>)
    requires certs != [] && certs[0] != [] && |EncodeCertificates(certs)| < 0x100_0000
    ensures var list := EncodeCertificates(certs);
            LeafCertificate(WrapHandshake(0x0b, U24(|list|) + list)) == Some(certs[0])
  {
    var list := EncodeCertificates(certs);
    var msg := WrapHandshake(CERTIFICATE, U24(|list|) + list);
    var head := [CERTIFICATE] + U24(3 + |list|);
    assert msg == head + U24(|list|) + list;
    assert GetU24(msg, 4) == |list| by {
      U24RoundTrip(|list|, head, list);
    }
    var rest := certs[0] + EncodeCertificates(certs[1..]);
    assert msg == (head + U24(|list|)) + U24(|certs[0]|) + rest;
    assert GetU24(msg, 7) == |certs[0]| by {
      U24RoundTrip(|certs[0]|, head + U24(|list|), rest);
    }
    assert msg[10..] == rest && rest[..|certs[0]|] == certs[0];
    assert msg[10..10 + |certs[0]|] == msg[10..][..|certs[0]|];
  }

  const NAMED_CURVE: byte := 0x03

  function ParseEcdheServerKeyExchange(msg: seq<byte>): Option<(uint16, seq<byte>)> {
    if |msg| < 8 || msg[4] != NAMED_CURVE then None
    else if 8 + msg[7] > |msg| then None
    else Some((GetU16(msg, 5), msg[8..8 + msg[7]]))
  }

  predicate EcdhCurve(id: uint16) {
    id in CURVES
  }

  lemma ServerKeyExchangeRoundTrip(curve: uint16, point: seq<byte>, signature: seq<byte>)
    requires |point| < 0x100
    ensures ParseEcdheServerKeyExchange(
              WrapHandshake(0x0c, [0x03] + U16(curve) + [|point|] + point + signature)) ==
            Some((curve, point))
  {
    var msg := WrapHandshake(SERVER_KEY_EXCHANGE, [NAMED_CURVE] + U16(curve) + [|point|] + point + signature);
    assert msg[4] == NAMED_CURVE && msg[7] == |point| && GetU16(msg, 5) == curve;
    assert msg[8..8 + |point|] == point;
  }

  /** A leaf is taken exactly out of a list that is announced in full and starts with a non-empty certificate. */
  lemma LeafParseExact(msg: seq<byte>, der: seq<byte>)
    ensures LeafCertificate(msg) == Some(der) <==>
            exists head, total: nat, rest :: IsLeafFraming(msg, head, total, der, rest)
  {
    if LeafCertificate(msg) == Some(der) {
      LeafPieces(msg, der);
      assert IsLeafFraming(msg, msg[..4], GetU24(msg, 4), der, msg[10 + |der|..]);
    }
    forall head, total: nat, rest | IsLeafFraming(msg, head, total, der, rest) ensures LeafCertificate(msg) == Some(der) {
      LeafReadBack(msg, head, total, der, rest);
    }
  }

  /** Header, the length of the list, the length of the first certificate, the certificate. */
  predicate IsLeafFraming(msg: seq<byte>, head: seq<byte>, total: nat, der: seq<byte>, rest: seq<byte>) {
    && |head| == 4 && 0 < |der| < 0x100_0000 && total <= 3 + |der| + |rest|
    && msg == head + U24(total) + U24(|der|) + der + rest && total < 0x100_0000
  }

  lemma LeafPieces(msg: seq<byte>, der: seq<byte>)
    requires LeafCertificate(msg) == Some(der)
    ensures msg == msg[..4] + U24(GetU24(msg, 4)) + U24(|der|) + der + msg[10 + |der|..]
    ensures GetU24(msg, 4) <= 3 + |der| + |msg[10 + |der|..]|
  {
    hide U24;
    ThreeBytes(msg, 4);
    ThreeBytes(msg, 7);
    FivePieces(msg, 4, 7, 10, 10 + |der|);
  }

  lemma ThreeBytes(msg: seq<byte>, p: nat)
    requires p + 3 <= |msg|
    ensures U24(GetU24(msg, p)) == msg[p..p + 3]
  {
    Digits(msg[p], msg[p + 1], msg[p + 2]);
  }

  lemma Digits(a: byte, b: byte, c: byte)
    ensures var n: nat := a as int * 0x1_0000 + b as int * 0x100 + c as int;
            n % 0x100 == c && n / 0x100 == a as int * 0x100 + b as int && n / 0x100 % 0x100 == b && n / 0x1_0000 % 0x100 == a
  {
    var n: nat := a as int * 0x1_0000 + b as int * 0x100 + c as int;
    assert n == (a as int * 0x100 + b as int) * 0x100 + c as int;
  }

  lemma FivePieces(s: seq<byte>, a: nat, b: nat, c: nat, d: nat)
    requires a <= b <= c <= d <= |s|
    ensures s == s[..a] + s[a..b] + s[b..c] + s[c..d] + s[d..]
  {
  }

  lemma LeafReadBack(msg: seq<byte>, head: seq<byte>, total: nat, der: seq<byte>, rest: seq<byte>)
    requires IsLeafFraming(msg, head, total, der, rest)
    ensures LeafCertificate(msg) == Some(der)
  {
    assert GetU24(msg, 4) == total by {
      U24RoundTrip(total, head, U24(|der|) + der + rest);
      assert msg == head + U24(total) + (U24(|der|) + der + rest);
    }
    assert GetU24(msg, 7) == |der| by {
      U24RoundTrip(|der|, head + U24(total), der + rest);
      assert msg == (head + U24(total)) + U24(|der|) + (der + rest);
    }
    assert msg[10..10 + |der|] == der;
  }

  /** Curve and point are read exactly out of a named curve with a whole point. */
  lemma KeyExchangeParseExact(msg: seq<byte>, curve: uint16, point: seq<byte>)
    ensures ParseEcdheServerKeyExchange(msg) == Some((curve, point)) <==>
            |point| < 0x100 && exists head, rest :: IsPointFraming(msg, head, curve, point, rest)
  {
    hide ParseEcdheServerKeyExchange, IsPointFraming;
    if ParseEcdheServerKeyExchange(msg) == Some((curve, point)) {
      PointTakenOut(msg, curve, point);
    }
    forall head, rest | |point| < 0x100 && IsPointFraming(msg, head, curve, point, rest)
      ensures ParseEcdheServerKeyExchange(msg) == Some((curve, point))
    {
      PointPutIn(msg, head, curve, point, rest);
    }
  }

  lemma PointTakenOut(msg: seq<byte>, curve: uint16, point: seq<byte>)
    requires ParseEcdheServerKeyExchange(msg) == Some((curve, point))
    ensures |point| < 0x100 && |msg| >= 8 + |point| && IsPointFraming(msg, msg[..4], curve, point, msg[8 + |point|..])
  {
    assert U16(curve) == msg[5..7];
    hide U16;
    assert msg == msg[..4] + [3] + msg[5..7] + [|point|] + point + msg[8 + |point|..];
  }

  lemma PointPutIn(msg: seq<byte>, head: seq<byte>, curve: uint16, point: seq<byte>, rest: seq<byte>)
    requires IsPointFraming(msg, head, curve, point, rest)
    ensures ParseEcdheServerKeyExchange(msg) == Some((curve, point))
  {
    assert msg[4] == 3 && msg[7] == |point| && [msg[5], msg[6]] == U16(curve);
    assert msg[8..8 + |point|] == point;
  }

  predicate IsPointFraming(msg: seq<byte>, head: seq<byte>, curve: uint16, point: seq<byte>, rest: seq<byte>) {
    && |head| == 4 && |point| < 0x100 && msg == head + [3] + U16(curve) + [|point|] + point + rest
  }

  // ----- ClientKeyExchange, as a server parses it -----

  /** The one message of a handshake record, every length exact. */
  function ExchangeBody(record: seq<byte>): Option<seq<byte>> {
    match Unwrap(record)
    case None => None
    case Some((contentType, m)) =>
      if contentType != 0x16 || |m| < 4 || m[0] != 0x10 || GetU24(m, 1) != |m| - 4 then None
      else Some(m[4..])
  }

  function Whole(v: Option<(seq<byte>, seq<byte>)>): Option<seq<byte>> {
    match v
    case None => None
    case Some((body, trailing)) => if trailing == [] then Some(body) else None
  }

  /** Section 7.4.7.1 of RFC 5246: the encrypted premaster secret. */
  function ExchangedSecret(record: seq<byte>): Option<seq<byte>> {
    match ExchangeBody(record)
    case None => None
    case Some(body) => Whole(Vec16(body))
  }

  /** Section 5.7 of RFC 8422: the client's point. */
  function ExchangedPoint(record: seq<byte>): Option<seq<byte>> {
    match ExchangeBody(record)
    case None => None
    case Some(body) => Whole(Vec8(body))
  }

  function ClientKeyExchange(body: seq<byte>): seq<byte> {
    WrapRecord(HANDSHAKE_RECORD, WrapHandshake(CLIENT_KEY_EXCHANGE, body))
  }

  lemma ExchangeBodyReadBack(body: seq<byte>)
    ensures ExchangeBody(ClientKeyExchange(body)) == if 4 + |body| < 0x1_0000 then Some(body) else None
  {
    UnwrapOfWrap(HANDSHAKE_RECORD, WrapHandshake(CLIENT_KEY_EXCHANGE, body));
    if 4 + |body| < 0x1_0000 {
      WrapHandshakeParts(CLIENT_KEY_EXCHANGE, body);
    }
  }

  /** An encrypted premaster is read back exactly when the record's 16-bit length can hold it. */
  lemma SecretReadBack(sealed: seq<byte>)
    ensures ExchangedSecret(ClientKeyExchange(U16(|sealed|) + sealed)) ==
            if 6 + |sealed| < 0x1_0000 then Some(sealed) else None
  {
    hide Vec16;
    var body := U16(|sealed|) + sealed;
    ExchangeBodyReadBack(body);
    if 6 + |sealed| < 0x1_0000 {
      assert body == U16(|sealed|) + sealed + [];
      Vec16RoundTrip(sealed, []);
    }
  }

  /** A point is read back exactly when its 8-bit length can hold it. */
  lemma PointReadBack(point: seq<byte>)
    ensures ExchangedPoint(ClientKeyExchange([|point| % 0x100] + point)) ==
            if |point| < 0x100 then Some(point) else None
  {
    var body := [|point| % 0x100] + point;
    ExchangeBodyReadBack(body);
    if |point| < 0x100 {
      assert body == [|point|] + point + [];
      Vec8RoundTrip(point, []);
    }
  }
}
