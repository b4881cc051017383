/** The other end: what an RFC 5246 server derives from the bytes that crossed the wire. */
module Server {
  import opened Bytes
  import opened Wrappers
  import opened Network
  import opened Primitives
  import opened Prf
  import opened Hello
  import opened Reassembly
  import opened Flights
  import opened RecordLayer
  import opened Driver
  import opened Session
  import Rfc5246

  /**
   What a server brings to the key exchange: an ephemeral key pair with the signature over its
   parameters, or a certificate chain and the decryption under the leaf's key.
   */
  datatype Secret =
    | Ephemeral(curve: uint16, seed: seq<byte>, point: seq<byte>, signature: seq<byte>)
    | Decryption(chain: seq<seq<byte>>, open: seq<byte> -> Option<seq<byte>>)

  /** A server's own side of a handshake: its hello, the messages it sent, its secret. */
  datatype ServerView = ServerView(hello: ServerHello, flight: seq<seq<byte>>, secret: Secret)

  function BodyOf(record: seq<byte>, contentType: byte): Option<seq<byte>> {
    match Unwrap(record)
    case None => None
    case Some((t, body)) => if t == contentType then Some(body) else None
  }

  predicate OfVersion33(record: seq<byte>) {
    |record| >= 3 && record[1..3] == [3, 3]
  }

  // ----- the server's premaster secret -----

  /** The premaster secret a server computes from the ClientKeyExchange record. */
  function ServerPremaster(c: Crypto, secret: Secret, record: seq<byte>): Option<seq<byte>> {
    match secret
    case Ephemeral(curve, seed, _, _) =>
      (match ExchangedPoint(record)
       case None => None
       case Some(point) => c.ecdhShared(curve, seed, point))
    case Decryption(_, open) =>
      (match ExchangedSecret(record)
       case None => None
       case Some(sealed) => Versioned(open(sealed)))
  }

  /** Section 7.4.7.1 of RFC 5246: 48 bytes that start with the version the ClientHello offered. */
  function Versioned(premaster: Option<seq<byte>>): Option<seq<byte>> {
    if premaster.Some? && |premaster.value| == 48 && premaster.value[..2] == [3, 3] then premaster else None
  }

  /** The law of a key agreement: both ends compute the same secret or both fail. */
  ghost predicate EcdhCommutes(c: Crypto) {
    forall curve: uint16, a: seq<byte>, b: seq<byte> ::
      c.ecdhPublic(curve, a).Some? && c.ecdhPublic(curve, b).Some? ==>
        c.ecdhShared(curve, a, c.ecdhPublic(curve, b).value) == c.ecdhShared(curve, b, c.ecdhPublic(curve, a).value)
  }

  /** open inverts sealing under the key. */
  ghost predicate Opens(c: Crypto, pub: RsaKey, open: seq<byte> -> Option<seq<byte>>) {
    forall premaster: seq<byte>, seed: seq<byte> ::
      c.rsaSeal(pub, premaster, seed).Some? ==> open(c.rsaSeal(pub, premaster, seed).value) == Some(premaster)
  }

  /** Sections 7.4.2 of RFC 5246 and 5.4 of RFC 8422: the messages sent carry the key that is held. */
  ghost predicate Holds(c: Crypto, ecdhe: bool, secret: Secret, flight: seq<seq<byte>>)
    requires |flight| >= 3
  {
    match secret
    case Ephemeral(curve, seed, point, signature) =>
      && ecdhe && c.ecdhPublic(curve, seed) == Some(point) && |point| < 0x100
      && flight[2] == WrapHandshake(0x0c, [0x03] + U16(curve) + [|point|] + point + signature)
    case Decryption(chain, open) =>
      && !ecdhe && chain != [] && chain[0] != [] && |EncodeCertificates(chain)| < 0x100_0000
      && flight[1] == WrapHandshake(0x0b, U24(|EncodeCertificates(chain)|) + EncodeCertificates(chain))
      && (c.leafKey(chain[0]).Some? ==> Opens(c, c.leafKey(chain[0]).value, open))
  }

  /** The length fields of the ClientKeyExchange record are honest: 8 bits for a point, 16 for a record. */
  predicate ExchangeFits(ecdhe: bool, record: seq<byte>) {
    |record| < if ecdhe then 5 + 4 + 1 + 0x100 else 5 + 0x1_0000
  }

  /**
   Key agreement over the wire: from the client's record the server computes the client's premaster
   secret, exactly when the record's length fields are honest.
   */
  lemma PremasterAgrees(c: Crypto, rnd: Randomness, params: CipherParams, secret: Secret, flight: seq<seq<byte>>)
    requires |flight| >= 3 && Holds(c, params.ecdhe, secret, flight) && EcdhCommutes(c)
    ensures var kex := KeyExchange(c, rnd, params, flight);
            kex.Some? ==>
              ServerPremaster(c, secret, ClientKeyExchange(kex.value.body)) ==
              if ExchangeFits(params.ecdhe, ClientKeyExchange(kex.value.body)) then Some(kex.value.premaster) else None
  {
    hide EncodeCertificates, LeafCertificate, ParseEcdheServerKeyExchange, ExchangedPoint, ExchangedSecret;
    var kex := KeyExchange(c, rnd, params, flight);
    if kex.Some? {
      match secret
      case Ephemeral(curve, seed, point, signature) =>
        ServerKeyExchangeRoundTrip(curve, point, signature);
        PointReadBack(c.ecdhPublic(curve, rnd.ecdhSeed).value);
      case Decryption(chain, open) =>
        LeafOfCertificate(chain);
        SecretReadBack(c.rsaSeal(c.leafKey(chain[0]).value, kex.value.premaster, rnd.sealSeed).value);
    }
  }

  /** When the client's part of the key exchange succeeds on what a server sent. */
  predicate ExchangeWorks(c: Crypto, rnd: Randomness, secret: Secret) {
    match secret
    case Ephemeral(curve, _, point, _) =>
      && curve in {29, 23, 24, 25}
      && c.ecdhPublic(curve, rnd.ecdhSeed).Some? && c.ecdhShared(curve, rnd.ecdhSeed, point).Some?
    case Decryption(chain, _) =>
      && chain != [] && c.leafKey(chain[0]).Some? && rnd.premasterTail.Some?
      && c.rsaSeal(c.leafKey(chain[0]).value, [3, 3] + rnd.premasterTail.value, rnd.sealSeed).Some?
  }

  lemma ExchangeExact(c: Crypto, rnd: Randomness, params: CipherParams, secret: Secret, flight: seq<seq<byte>>)
    requires |flight| >= 3 && Holds(c, params.ecdhe, secret, flight)
    ensures KeyExchange(c, rnd, params, flight).Some? <==> ExchangeWorks(c, rnd, secret)
  {
    hide EncodeCertificates, LeafCertificate, ParseEcdheServerKeyExchange;
    match secret
    case Ephemeral(curve, seed, point, signature) =>
      ServerKeyExchangeRoundTrip(curve, point, signature);
    case Decryption(chain, open) =>
      LeafOfCertificate(chain);
  }

  // ----- what the server derives and accepts -----

  /** The version whose key derivation and record layer this is, and no compression. */
  predicate IsPlainTls12(hello: ServerHello) {
    hello.version == 0x0303 && hello.compression == 0
  }

  /** Sections 8.1 and 6.3 of RFC 5246, from the ClientHello and ClientKeyExchange as parsed off the wire. */
  ghost predicate Derives(c: Crypto, sent: seq<seq<byte>>, sv: ServerView, master: seq<byte>, keys: Keys)
    requires |sent| >= 2
  {
    && ParseClientHello(sent[0]).Some? && Rfc5246.SuiteOf(sv.hello.suite).Some? && IsPlainTls12(sv.hello)
    && ServerPremaster(c, sv.secret, sent[1]).Some?
    && DerivesFrom(c, ParseClientHello(sent[0]).value.random, ServerPremaster(c, sv.secret, sent[1]).value,
                   sv.hello.random, Rfc5246.SuiteOf(sv.hello.suite).value, master, keys)
  }

  ghost predicate DerivesFrom(c: Crypto, clientRandom: seq<byte>, premaster: seq<byte>, serverRandom: seq<byte>,
                              p: Rfc5246.Suite, master: seq<byte>, keys: Keys) {
    && master == Rfc5246.Prf(c, premaster, "master secret", clientRandom + serverRandom, 48)
    && PartitionsKeyBlock(keys, Rfc5246.Prf(c, master, "key expansion", serverRandom + clientRandom,
                                            2 * p.macLen + 2 * p.keyLen), p.macLen, p.keyLen)
  }

  const HELLO_REQUEST: byte := 0x00

  predicate IsHelloRequest(m: seq<byte>) {
    |m| >= 1 && m[0] == HELLO_REQUEST
  }

  predicate HasHelloRequest(ms: seq<seq<byte>>) {
    exists m :: m in ms && IsHelloRequest(m)
  }

  /** Section 7.4.1.1 of RFC 5246: HelloRequest messages are not hashed. */
  function Hashed(ms: seq<seq<byte>>): seq<seq<byte>> {
    if ms == [] then []
    else if IsHelloRequest(ms[0]) then Hashed(ms[1..])
    else [ms[0]] + Hashed(ms[1..])
  }

  /** What is hashed of a flight equals what was sent exactly when it holds no HelloRequest. */
  lemma {:induction false} HashedExact(ms: seq<seq<byte>>)
    ensures |Flatten(Hashed(ms))| <= |Flatten(ms)|
    ensures !HasHelloRequest(ms) ==> Hashed(ms) == ms
    ensures HasHelloRequest(ms) ==> |Flatten(Hashed(ms))| < |Flatten(ms)|
  {
    if ms != [] {
      HashedExact(ms[1..]);
      if !IsHelloRequest(ms[0]) {
        assert Flatten(Hashed(ms)) == ms[0] + Flatten(Hashed(ms[1..])) by {
          assert Hashed(ms)[1..] == Hashed(ms[1..]);
        }
        assert HasHelloRequest(ms) ==> HasHelloRequest(ms[1..]);
      }
      assert HasHelloRequest(ms[1..]) ==> HasHelloRequest(ms);
    }
  }

  const CERTIFICATE_REQUEST: byte := 0x0d

  predicate HasCertificateRequest(ms: seq<seq<byte>>) {
    exists m :: m in ms && |m| >= 1 && m[0] == CERTIFICATE_REQUEST
  }

  function TypesOf(ms: seq<seq<byte>>): (types: seq<byte>)
    requires forall m :: m in ms ==> |m| >= 4
    ensures |types| == |ms|
  {
    seq(|ms|, i requires 0 <= i < |ms| => ms[i][0])
  }

  /**
   Sections 7.3 and 7.4.6 of RFC 5246: what the client sends between the flight and its
   ChangeCipherSpec. A client that was asked sends a Certificate message, empty if it has none.
   */
  predicate AnswersFlight(flight: seq<seq<byte>>, body: seq<byte>) {
    && Leftover(body) == []
    && var types := TypesOf(Messages(body));
       if HasCertificateRequest(flight) then
         types == [0x0b, 0x10] || types == [0x0b, 0x10, 0x0f]
       else types == [0x10]
  }

  /** ClientHello, the given messages and ClientKeyExchange, out of the client's first two records. */
  function HandshakeMessages(sent: seq<seq<byte>>, messages: seq<seq<byte>>): seq<byte>
    requires |sent| >= 2 && |sent[0]| >= 5 && |sent[1]| >= 5
  {
    sent[0][5..] + Flatten(messages) + sent[1][5..]
  }

  function FinishedOver(c: Crypto, master: seq<byte>, transcript: seq<byte>): (m: seq<byte>)
    ensures |m| == 16
  {
    [0x14, 0, 0, 12] + Rfc5246.Prf(c, master, "client finished", c.sha256(transcript), 12)
  }

  /**
   Section 7.4.9 of RFC 5246: the second record holds the messages the flight calls for, and the
   fourth decrypts, under sequence number 0, to a Finished over ClientHello, the server's messages
   without any HelloRequest, and those messages.
   */
  ghost predicate AcceptsFinished(c: Crypto, sent: seq<seq<byte>>, sv: ServerView, master: seq<byte>, keys: Keys)
    requires |sent| == 4
  {
    && Derives(c, sent, sv, master, keys)
    && BodyOf(sent[0], 0x16).Some? && BodyOf(sent[1], 0x16).Some?
    && AnswersFlight(sv.flight, BodyOf(sent[1], 0x16).value)
    && BodyOf(sent[2], 0x14) == Some([0x01])
    && BodyOf(sent[3], 0x16).Some?
    && OfVersion33(sent[1]) && OfVersion33(sent[2]) && OfVersion33(sent[3])
    && ServerReceives(c, keys, 0, sent[3]) ==
       Accepted(FinishedOver(c, master, HandshakeMessages(sent, Hashed(sv.flight))))
  }

  /** The server's messages as they reach the client after its hello. */
  function WireMessages(peer: Peer, host: seq<byte>, clientRandom: seq<byte>): seq<seq<byte>> {
    Messages(Payload(WireBytes(peer, host, clientRandom)))
  }

  /** What the client can read once it has written its hello. */
  function WireBytes(peer: Peer, host: seq<byte>, clientRandom: seq<byte>): seq<byte> {
    match Written(peer, Opened(peer), CbcClientHelloRecord(host, clientRandom))
    case None => []
    case Some(l) => l.stream
  }

  /** The server sent this flight and holds the key it carries. */
  ghost predicate Matches(c: Crypto, peer: Peer, host: seq<byte>, clientRandom: seq<byte>, sv: ServerView) {
    var ms := WireMessages(peer, host, clientRandom);
    && WellFormed(sv.hello) && HasDone(ms) && sv.flight == ThroughDone(ms) && |sv.flight| >= 3
    && sv.flight[0] == EncodeServerHello(sv.hello)
    && Rfc5246.SuiteOf(sv.hello.suite).Some?
    && Holds(c, Rfc5246.SuiteOf(sv.hello.suite).value.ephemeral, sv.secret, sv.flight)
  }

  /** The two Finished messages over the flight as sent and as hashed are the same. */
  predicate FinishedCoincide(c: Crypto, master: seq<byte>, sent: seq<seq<byte>>, flight: seq<seq<byte>>)
    requires |sent| >= 2 && |sent[0]| >= 5 && |sent[1]| >= 5
  {
    FinishedOver(c, master, HandshakeMessages(sent, flight)) ==
    FinishedOver(c, master, HandshakeMessages(sent, Hashed(flight)))
  }

  /** The client's records let the server derive keys: its hello is of this protocol and the lengths are honest. */
  predicate LetsDerive(host: seq<byte>, hello: ServerHello, cke: seq<byte>) {
    && IsPlainTls12(hello) && |host| <= MAX_HOST
    && Rfc5246.SuiteOf(hello.suite).Some? && ExchangeFits(Rfc5246.SuiteOf(hello.suite).value.ephemeral, cke)
  }

  /**
   Premaster, transcript, keys and record layer together, whenever the four records are written: a
   server that sent the flight, in whatever records, computes keys exactly when its hello is of this
   protocol and the lengths of ClientHello and ClientKeyExchange are honest; the keys are then the
   client's; and it accepts the client's Finished exactly when its flight asks for no certificate,
   and holds no HelloRequest or the hash does not tell.
   */
  lemma FinishedAccepted(c: Crypto, peer: Peer, rnd: Randomness, host: seq<byte>, sv: ServerView, w: Pending)
    requires AesInverts(c) && EcdhCommutes(c) && Handshake(c, Some(peer), rnd, host) == Some(w)
    requires Matches(c, peer, host, rnd.clientRandom.value, sv)
    ensures |w.link.sent| == 4 && |w.link.sent[0]| >= 5 && |w.link.sent[1]| >= 5
    ensures (exists master, keys :: Derives(c, w.link.sent, sv, master, keys)) <==>
            LetsDerive(host, sv.hello, w.link.sent[1])
    ensures forall master, keys :: Derives(c, w.link.sent, sv, master, keys) ==>
              && keys == w.keys
              && (AcceptsFinished(c, w.link.sent, sv, master, keys) <==>
                  && !HasCertificateRequest(sv.flight)
                  && (!HasHelloRequest(sv.flight) || FinishedCoincide(c, master, w.link.sent, sv.flight)))
    ensures Negotiated(WireMessages(peer, host, rnd.clientRandom.value)).Some?
  {
    hide *;
    var clientRandom := rnd.clientRandom.value;
    var hello := CbcClientHelloRecord(host, clientRandom);
    var n, kex, link := HandshakeSplits(c, peer, rnd, host, sv, w);
    PremasterAgrees(c, rnd, n.params, sv.secret, sv.flight);
    CbcClientHelloRoundTrip(host, clientRandom);
    FourRecords(c, peer, rnd.finishedIv, hello, clientRandom, n, kex, link, w);
    var sent, master := w.link.sent, Master(c, n, kex, clientRandom);
    KeysDerived(c, sent, sv, n, kex, clientRandom, host, w.keys);
    if Derives(c, sent, sv, master, w.keys) {
      KeysUnique(c, sent, sv, master, w.keys);
      FinishedRead(c, sent, sv, kex.body, rnd.finishedIv.value, master, w.keys);
    }
  }

  /** What the written records say about the flight and the key exchange. */
  lemma HandshakeSplits(c: Crypto, peer: Peer, rnd: Randomness, host: seq<byte>, sv: ServerView, w: Pending)
    returns (n: Negotiation, kex: Kex, link: Link)
    requires Handshake(c, Some(peer), rnd, host) == Some(w)
    requires Matches(c, peer, host, rnd.clientRandom.value, sv)
    ensures Negotiated(WireMessages(peer, host, rnd.clientRandom.value)) == Some(n)
    ensures ParamsForSuite(sv.hello.suite) == Some(n.params) && n.serverRandom == sv.hello.random && n.msgs == sv.flight
    ensures Rfc5246.SuiteOf(sv.hello.suite) == Some(Rfc5246.Suite(n.params.keyLen, n.params.macLen, n.params.ecdhe))
    ensures |sv.flight| >= 3 && Holds(c, n.params.ecdhe, sv.secret, sv.flight)
    ensures KeyExchange(c, rnd, n.params, sv.flight) == Some(kex)
    ensures var hello := CbcClientHelloRecord(host, rnd.clientRandom.value);
            link.sent == [hello] &&
            SendFinished(c, peer, rnd.finishedIv, hello, rnd.clientRandom.value, n, kex, link) == Some(w)
  {
    hide SendFinished, KeyExchange, CbcClientHelloRecord, ThroughDone, HasDone, Messages, Payload, EncodeServerHello,
         WellFormed, ParamsForSuite, Rfc5246.SuiteOf, Expect, Holds;
    ParamsAreRfc(sv.hello.suite);
    var l := Written(peer, Opened(peer), CbcClientHelloRecord(host, rnd.clientRandom.value)).value;
    var o := ReadOpening(l.stream).value;
    var r := ReadRest(o).value;
    n, link := r.negotiation, Link(l.sent, r.stream);
    ReadNegotiationMeaning(l.stream);
    NegotiatedFrom(WireMessages(peer, host, rnd.clientRandom.value), sv.hello, n);
    assert o.msgs <= n.msgs;
    kex := KeyExchange(c, rnd, o.params, o.msgs).value;
    KeyExchangeReadsOpening(c, rnd, o.params, o.msgs, n.msgs);
  }

  lemma KeyExchangeReadsOpening(c: Crypto, rnd: Randomness, params: CipherParams, opening: seq<seq<byte>>, ms: seq<seq<byte>>)
    requires |opening| >= if params.ecdhe then 3 else 2
    requires |ms| >= 3 && opening <= ms
    ensures KeyExchange(c, rnd, params, opening) == KeyExchange(c, rnd, params, ms)
  {
  }

  /** The four records, and the client's keys. */
  lemma FourRecords(c: Crypto, peer: Peer, finishedIv: Option<Block>, hello: seq<byte>, clientRandom: seq<byte>,
                       n: Negotiation, kex: Kex, link: Link, w: Pending)
    requires |hello| >= 5 && link.sent == [hello]
    requires SendFinished(c, peer, finishedIv, hello, clientRandom, n, kex, link) == Some(w)
    ensures finishedIv.Some?
    ensures var master, cke := Master(c, n, kex, clientRandom), ClientKeyExchange(kex.body);
            && w.keys == SessionKeys(c, n.params, master, clientRandom, n.serverRandom)
            && |cke| == 9 + |kex.body|
            && w.link.sent == [hello, cke, WrapRecord(CHANGE_CIPHER_SPEC_RECORD, [0x01]),
                               FinishedRecord(c, w.keys, master, HandshakeMessages([hello, cke], n.msgs), finishedIv.value)]
  {
    hide Seal, Prf12, Rfc5246.Prf;
    PrfIsRfc(c, Master(c, n, kex, clientRandom), "client finished", c.sha256(Transcript(hello, n.msgs, kex.body)), 12);
    var master, cke := Master(c, n, kex, clientRandom), ClientKeyExchange(kex.body);
    assert cke[5..] == WrapHandshake(CLIENT_KEY_EXCHANGE, kex.body);
    assert HandshakeMessages([hello, cke], n.msgs) == Transcript(hello, n.msgs, kex.body);
    assert FinishedOver(c, master, Transcript(hello, n.msgs, kex.body)) ==
           FinishedMessage(c, master, Transcript(hello, n.msgs, kex.body));
  }

  function FinishedRecord(c: Crypto, keys: Keys, master: seq<byte>, transcript: seq<byte>, iv: Block): seq<byte> {
    Seal(c, keys, 0, HANDSHAKE_RECORD, FinishedOver(c, master, transcript), false, -1, iv)
  }

  /** The server can derive keys exactly when both records parse, and then the client's are among them. */
  lemma KeysDerived(c: Crypto, sent: seq<seq<byte>>, sv: ServerView, n: Negotiation, kex: Kex, clientRandom: seq<byte>,
                    host: seq<byte>, keys: Keys)
    requires |sent| >= 2 && n.serverRandom == sv.hello.random
    requires Rfc5246.SuiteOf(sv.hello.suite) == Some(Rfc5246.Suite(n.params.keyLen, n.params.macLen, n.params.ecdhe))
    requires ParseClientHello(sent[0]).Some? <==> |host| <= MAX_HOST
    requires ParseClientHello(sent[0]).Some? ==> ParseClientHello(sent[0]).value.random == clientRandom
    requires ServerPremaster(c, sv.secret, sent[1]) ==
             if ExchangeFits(n.params.ecdhe, sent[1]) then Some(kex.premaster) else None
    requires keys == SessionKeys(c, n.params, Master(c, n, kex, clientRandom), clientRandom, n.serverRandom)
    ensures (exists master, k :: Derives(c, sent, sv, master, k)) <==> LetsDerive(host, sv.hello, sent[1])
    ensures LetsDerive(host, sv.hello, sent[1]) ==> Derives(c, sent, sv, Master(c, n, kex, clientRandom), keys)
  {
    hide ParseClientHello, Rfc5246.SuiteOf, ServerPremaster, ExchangeFits, Prf12, Rfc5246.Prf, Ascii;
    var master := Master(c, n, kex, clientRandom);
    PrfIsRfc(c, kex.premaster, "master secret", clientRandom + n.serverRandom, 48);
    PrfIsRfc(c, master, "key expansion", n.serverRandom + clientRandom, 2 * n.params.macLen + 2 * n.params.keyLen);
    if LetsDerive(host, sv.hello, sent[1]) {
      assert Derives(c, sent, sv, Master(c, n, kex, clientRandom), keys);
    }
  }

  lemma NegotiatedFrom(ms: seq<seq<byte>>, hello: ServerHello, n: Negotiation)
    requires WellFormed(hello) && Negotiated(ms) == Some(n) && ms[0] == EncodeServerHello(hello)
    ensures ParamsForSuite(hello.suite) == Some(n.params) && n.serverRandom == hello.random
    ensures HasDone(ms) && n.msgs == ThroughDone(ms) && n.msgs <= ms
  {
    hide EncodeServerHello, HasExtension, ParseServerHelloSuite;
    ServerHelloParsers(hello, 0);
  }

  /** Key agreement: the records and the server's own view determine the master secret and all four keys. */
  lemma KeysUnique(c: Crypto, sent: seq<seq<byte>>, sv: ServerView, master: seq<byte>, keys: Keys)
    requires |sent| >= 2 && Derives(c, sent, sv, master, keys)
    ensures forall m, k :: Derives(c, sent, sv, m, k) ==> m == master && k == keys
  {
    hide ParseClientHello, Rfc5246.SuiteOf, ServerPremaster, Rfc5246.Prf, PartitionsKeyBlock;
    var clientRandom, p := ParseClientHello(sent[0]).value.random, Rfc5246.SuiteOf(sv.hello.suite).value;
    var block := Rfc5246.Prf(c, master, "key expansion", sv.hello.random + clientRandom, 2 * p.macLen + 2 * p.keyLen);
    forall m, k | Derives(c, sent, sv, m, k) ensures m == master && k == keys {
      PartitionUnique(k, keys, block, p.macLen, p.keyLen);
    }
  }

  /** What a server with the keys makes of the four records. */
  lemma FinishedRead(c: Crypto, sent: seq<seq<byte>>, sv: ServerView, body: seq<byte>, iv: Block, master: seq<byte>, keys: Keys)
    requires AesInverts(c) && |sent| == 4 && |sent[0]| >= 5 && Derives(c, sent, sv, master, keys)
    requires sent[1] == ClientKeyExchange(body) && |sent[1]| == 9 + |body|
    requires sent[2] == WrapRecord(CHANGE_CIPHER_SPEC_RECORD, [0x01])
    requires sent[3] == FinishedRecord(c, keys, master, HandshakeMessages([sent[0], sent[1]], sv.flight), iv)
    ensures AcceptsFinished(c, sent, sv, master, keys) <==>
            && !HasCertificateRequest(sv.flight)
            && (!HasHelloRequest(sv.flight) || FinishedCoincide(c, master, sent, sv.flight))
  {
    hide Derives, ServerReceives, FinishedOver, HandshakeMessages, HasHelloRequest, Hashed, Seal, ClientKeyExchange, WrapRecord,
         AnswersFlight, ParseClientHello, ServerPremaster, BodyOf, OfVersion33;
    FirstTwo(sent, sv.flight);
    BodiesOf(c, sent, sv, body, master, keys);
    FinishedOpens(c, keys, FinishedOver(c, master, HandshakeMessages(sent, sv.flight)), iv);
    HashedExact(sv.flight);
  }

  lemma FirstTwo(sent: seq<seq<byte>>, messages: seq<seq<byte>>)
    requires |sent| >= 2 && |sent[0]| >= 5 && |sent[1]| >= 5
    ensures HandshakeMessages([sent[0], sent[1]], messages) == HandshakeMessages(sent, messages)
  {
  }

  /** The three plaintext records as the server reads them. */
  lemma BodiesOf(c: Crypto, sent: seq<seq<byte>>, sv: ServerView, body: seq<byte>, master: seq<byte>, keys: Keys)
    requires |sent| == 4 && Derives(c, sent, sv, master, keys)
    requires sent[1] == ClientKeyExchange(body) && |sent[1]| == 9 + |body|
    requires sent[2] == WrapRecord(CHANGE_CIPHER_SPEC_RECORD, [0x01])
    ensures BodyOf(sent[0], HANDSHAKE_RECORD).Some?
    ensures BodyOf(sent[1], HANDSHAKE_RECORD).Some?
    ensures AnswersFlight(sv.flight, BodyOf(sent[1], HANDSHAKE_RECORD).value) <==> !HasCertificateRequest(sv.flight)
    ensures BodyOf(sent[2], CHANGE_CIPHER_SPEC_RECORD) == Some([0x01])
    ensures OfVersion33(sent[1]) && OfVersion33(sent[2])
  {
    hide ParseClientHello, ServerPremaster, WrapRecord, AnswersFlight, WrapHandshake, Rfc5246.Prf, PartitionsKeyBlock;
    WrappedVersion(HANDSHAKE_RECORD, WrapHandshake(CLIENT_KEY_EXCHANGE, body));
    WrappedVersion(CHANGE_CIPHER_SPEC_RECORD, [0x01]);
    assert ParseClientHello(sent[0]).Some? && ServerPremaster(c, sv.secret, sent[1]).Some?;
    HelloBody(sent[0]);
    ExchangeIsHandshake(c, sv.secret, sent[1]);
    UnwrapOfWrap(HANDSHAKE_RECORD, WrapHandshake(CLIENT_KEY_EXCHANGE, body));
    UnwrapOfWrap(CHANGE_CIPHER_SPEC_RECORD, [0x01]);
    OneMessage(sv.flight, body);
  }

  lemma WrappedVersion(contentType: byte, body: seq<byte>)
    ensures OfVersion33(WrapRecord(contentType, body))
  {
    var record := WrapRecord(contentType, body);
    assert record[1..3] == [record[1], record[2]];
  }

  /** A lone ClientKeyExchange is what a flight calls for exactly when it asks for no certificate. */
  lemma OneMessage(flight: seq<seq<byte>>, body: seq<byte>)
    requires |body| < 0x1_0000
    ensures AnswersFlight(flight, WrapHandshake(CLIENT_KEY_EXCHANGE, body)) <==> !HasCertificateRequest(flight)
  {
    var m := WrapHandshake(CLIENT_KEY_EXCHANGE, body);
    WrapHandshakeParts(CLIENT_KEY_EXCHANGE, body);
    assert Framed([m]);
    MessagesOfFlatten([m]);
    FlattenConcat([m], []);
    assert [m] + [] == [m] && Flatten([m]) == m + Flatten([m][1..]) == m;
    assert TypesOf([m]) == [CLIENT_KEY_EXCHANGE];
  }

  lemma HelloBody(hello: seq<byte>)
    requires ParseClientHello(hello).Some?
    ensures BodyOf(hello, HANDSHAKE_RECORD).Some?
  {
    hide ParseClientHelloMessage;
  }

  lemma ExchangeIsHandshake(c: Crypto, secret: Secret, record: seq<byte>)
    requires ServerPremaster(c, secret, record).Some?
    ensures BodyOf(record, HANDSHAKE_RECORD).Some?
  {
  }

  lemma FinishedOpens(c: Crypto, keys: Keys, message: seq<byte>, iv: Block)
    requires AesInverts(c) && |message| == 16
    ensures var record := Seal(c, keys, 0, HANDSHAKE_RECORD, message, false, -1, iv);
            BodyOf(record, HANDSHAKE_RECORD).Some? && OfVersion33(record) &&
            ServerReceives(c, keys, 0, record) == Accepted(message)
  {
    var plain := Plain(c, keys.clientMac, 0, HANDSHAKE_RECORD, message, false, -1);
    CraftedLength(c.hmacSha1(keys.clientMac, MacInput(0, HANDSHAKE_RECORD, message)), message, false, -1);
    UnwrapOfWrap(HANDSHAKE_RECORD, Fragment(c, keys.clientKey, iv, plain));
    WrappedVersion(HANDSHAKE_RECORD, Fragment(c, keys.clientKey, iv, plain));
    ServerReceivesSealed(c, keys, 0, HANDSHAKE_RECORD, message, false, -1, iv);
    WellFormedAccepted(c, keys.clientMac, 0, HANDSHAKE_RECORD, message);
  }

  /**
   A session is returned only after the server's answer to the four records, read on from where its
   flight ended, has a ChangeCipherSpec followed by handshake or application data within six
   complete records, no alert before it.
   */
  lemma SessionOnlyAfterFinished(c: Crypto, peer: Peer, rnd: Randomness, host: seq<byte>, e: Established)
    requires Establish(c, Some(peer), rnd, host) == Some(e)
    ensures |e.link.sent| == 4
    ensures var l := Written(peer, Opened(peer), CbcClientHelloRecord(host, rnd.clientRandom.value));
            && l.Some? && ReadNegotiation(l.value.stream).Some?
            && var answer := ReadNegotiation(l.value.stream).value.stream + Flatten(peer.reply(e.link.sent[..2]))
                             + Flatten(peer.reply(e.link.sent[..3])) + Flatten(peer.reply(e.link.sent));
               FinishedWithin(RecordTypes(answer), false, 6)
  {
    hide *;
    var w := SessionSplits(c, peer, rnd, host);
    var answer := AnswerRead(c, peer, rnd, host, w);
    SessionExact(c, peer, rnd, host);
  }

  /** The unread bytes when the answer is awaited: what followed the flight and the replies to the three records. */
  lemma AnswerRead(c: Crypto, peer: Peer, rnd: Randomness, host: seq<byte>, w: Pending) returns (left: seq<byte>)
    requires Handshake(c, Some(peer), rnd, host) == Some(w)
    ensures |w.link.sent| == 4
    ensures var l := Written(peer, Opened(peer), CbcClientHelloRecord(host, rnd.clientRandom.value));
            l.Some? && ReadNegotiation(l.value.stream).Some? && left == ReadNegotiation(l.value.stream).value.stream
    ensures w.link.stream == left + Flatten(peer.reply(w.link.sent[..2])) + Flatten(peer.reply(w.link.sent[..3]))
                             + Flatten(peer.reply(w.link.sent))
  {
    hide CbcClientHelloRecord, ReadOpening, ReadRest, KeyExchange, Seal, FinishedMessage, SessionKeys, Master, Flatten,
         ClientKeyExchange, WrapRecord, Transcript;
    var l := Written(peer, Opened(peer), CbcClientHelloRecord(host, rnd.clientRandom.value)).value;
    var o := ReadOpening(l.stream).value;
    var r := ReadRest(o).value;
    var kex := KeyExchange(c, rnd, o.params, o.msgs).value;
    var l1 := Written(peer, Link(l.sent, r.stream), ClientKeyExchange(kex.body)).value;
    var l2 := Written(peer, l1, WrapRecord(CHANGE_CIPHER_SPEC_RECORD, [0x01])).value;
    assert w.link.sent[..2] == l1.sent && w.link.sent[..3] == l2.sent;
    left := r.stream;
  }

  lemma SessionSplits(c: Crypto, peer: Peer, rnd: Randomness, host: seq<byte>) returns (w: Pending)
    requires Establish(c, Some(peer), rnd, host).Some?
    ensures Handshake(c, Some(peer), rnd, host) == Some(w)
    ensures var e := Establish(c, Some(peer), rnd, host).value;
            e.keys == w.keys && e.params == w.params && e.link.sent == w.link.sent
  {
    hide Handshake, AwaitFinished, Advance;
    w := Handshake(c, Some(peer), rnd, host).value;
  }

  /** A session is returned exactly when the four records are written and the answer has that form. */
  lemma SessionExact(c: Crypto, peer: Peer, rnd: Randomness, host: seq<byte>)
    ensures var w := Handshake(c, Some(peer), rnd, host);
            Establish(c, Some(peer), rnd, host).Some? <==>
            w.Some? && FinishedWithin(RecordTypes(w.value.link.stream), false, 6)
  {
    hide Handshake, AwaitFinished, Advance, FinishedWithin, RecordTypes;
    if Handshake(c, Some(peer), rnd, host).Some? {
      AwaitFinishedExact(Handshake(c, Some(peer), rnd, host).value.link.stream, 6, false);
    }
  }

  // ----- a server that answers as it accepts -----

  /** It is silent until the client's Finished, and then sends its own exactly when it accepts that. */
  ghost predicate AnswersAsServer(c: Crypto, peer: Peer, sv: ServerView) {
    && (forall sent: seq<seq<byte>> :: 2 <= |sent| <= 3 ==> Flatten(peer.reply(sent)) == [])
    && forall sent: seq<seq<byte>> :: |sent| == 4 ==>
         (FinishedWithin(RecordTypes(Flatten(peer.reply(sent))), false, 6) <==>
          exists master, keys :: AcceptsFinished(c, sent, sv, master, keys))
  }

  /** Nothing follows the flight. */
  ghost predicate EndsWithFlight(peer: Peer, host: seq<byte>, clientRandom: seq<byte>) {
    var l := Written(peer, Opened(peer), CbcClientHelloRecord(host, clientRandom));
    l.Some? && ReadNegotiation(l.value.stream).Some? ==> ReadNegotiation(l.value.stream).value.stream == []
  }

  /**
   Client and server together: once the four records are written, a session is established exactly
   when the server can derive keys, asked for no certificate, and hashed what the client hashed; and
   the session's keys are the ones the server derives.
   */
  lemma ServerSession(c: Crypto, peer: Peer, rnd: Randomness, host: seq<byte>, sv: ServerView)
    requires AesInverts(c) && EcdhCommutes(c) && Handshake(c, Some(peer), rnd, host).Some?
    requires Matches(c, peer, host, rnd.clientRandom.value, sv)
    requires AnswersAsServer(c, peer, sv) && EndsWithFlight(peer, host, rnd.clientRandom.value)
    ensures var w, e := Handshake(c, Some(peer), rnd, host).value, Establish(c, Some(peer), rnd, host);
            && |w.link.sent| == 4 && |w.link.sent[0]| >= 5 && |w.link.sent[1]| >= 5
            && (e.Some? <==>
                && LetsDerive(host, sv.hello, w.link.sent[1]) && !HasCertificateRequest(sv.flight)
                && (!HasHelloRequest(sv.flight) ||
                    exists master :: Derives(c, w.link.sent, sv, master, w.keys) &&
                                     FinishedCoincide(c, master, w.link.sent, sv.flight)))
            && (e.Some? ==> exists master :: Derives(c, w.link.sent, sv, master, e.value.keys))
            && (e.Some? ==> forall master, keys :: Derives(c, w.link.sent, sv, master, keys) ==> keys == e.value.keys)
  {
    hide *;
    var w := Handshake(c, Some(peer), rnd, host).value;
    FinishedAccepted(c, peer, rnd, host, sv, w);
    SessionExact(c, peer, rnd, host);
    OnlyTheAnswer(c, peer, rnd, host, sv, w);
    AcceptedDerives(c, w.link.sent, sv);
    if Establish(c, Some(peer), rnd, host).Some? {
      var w' := SessionSplits(c, peer, rnd, host);
    }
  }

  lemma AcceptedDerives(c: Crypto, sent: seq<seq<byte>>, sv: ServerView)
    requires |sent| == 4
    ensures forall master, keys :: AcceptsFinished(c, sent, sv, master, keys) ==> Derives(c, sent, sv, master, keys)
  {
    hide Derives;
  }

  lemma OnlyTheAnswer(c: Crypto, peer: Peer, rnd: Randomness, host: seq<byte>, sv: ServerView, w: Pending)
    requires Handshake(c, Some(peer), rnd, host) == Some(w)
    requires AnswersAsServer(c, peer, sv) && EndsWithFlight(peer, host, rnd.clientRandom.value)
    ensures |w.link.sent| == 4
    ensures FinishedWithin(RecordTypes(w.link.stream), false, 6) <==>
            exists master, keys :: AcceptsFinished(c, w.link.sent, sv, master, keys)
  {
    hide Handshake, CbcClientHelloRecord, ReadNegotiation, Flatten, FinishedWithin, RecordTypes, AcceptsFinished, Written;
    var left := AnswerRead(c, peer, rnd, host, w);
    var reply := Flatten(peer.reply(w.link.sent));
    assert Flatten(peer.reply(w.link.sent[..2])) == [] && Flatten(peer.reply(w.link.sent[..3])) == [];
    assert [] + [] + [] + reply == reply;
  }

  /** The key exchange succeeds on the messages of a flight. */
  predicate ExchangeSucceeds(c: Crypto, rnd: Randomness, n: Negotiation) {
    |n.msgs| >= 3 && KeyExchange(c, rnd, n.params, n.msgs).Some?
  }

  /** A peer that takes every write gets all four records exactly when its flight negotiates and the draws succeed. */
  lemma HandshakeExact(c: Crypto, peer: Peer, rnd: Randomness, host: seq<byte>)
    requires rnd.clientRandom.Some? && forall sent :: peer.accepts(sent)
    ensures var ms := WireMessages(peer, host, rnd.clientRandom.value);
            Handshake(c, Some(peer), rnd, host).Some? <==>
            && rnd.finishedIv.Some? && Negotiated(ms).Some?
            && AllReached([], WireBytes(peer, host, rnd.clientRandom.value), ms, |Negotiated(ms).value.msgs|)
            && ExchangeSucceeds(c, rnd, Negotiated(ms).value)
  {
    hide CbcClientHelloRecord, ReadOpening, ReadRest, KeyExchange, Messages, Payload, Negotiated, AllReached, SendFinished;
    var hello := CbcClientHelloRecord(host, rnd.clientRandom.value);
    var l := Written(peer, Opened(peer), hello).value;
    ReadNegotiationMeaning(l.stream);
    if ReadNegotiation(l.stream).Some? {
      var o := ReadOpening(l.stream).value;
      var r := ReadRest(o).value;
      RestExtends(o, r);
      KeyExchangeReadsOpening(c, rnd, o.params, o.msgs, r.negotiation.msgs);
      if KeyExchange(c, rnd, o.params, o.msgs).Some? {
        AllTaken(c, peer, rnd.finishedIv, hello, rnd.clientRandom.value, r.negotiation,
                 KeyExchange(c, rnd, o.params, o.msgs).value, Link(l.sent, r.stream));
      }
    }
  }

  lemma RestExtends(o: Opening, r: Read)
    requires |o.msgs| >= 2 && ReadRest(o) == Some(r)
    ensures r.negotiation.params == o.params && o.msgs <= r.negotiation.msgs && |r.negotiation.msgs| >= 3
  {
    hide NextMessage;
  }

  lemma AllTaken(c: Crypto, peer: Peer, finishedIv: Option<Block>, hello: seq<byte>, clientRandom: seq<byte>,
                 n: Negotiation, kex: Kex, link: Link)
    requires |hello| >= 5 && forall sent :: peer.accepts(sent)
    ensures SendFinished(c, peer, finishedIv, hello, clientRandom, n, kex, link).Some? <==> finishedIv.Some?
  {
    hide Seal, FinishedMessage, Transcript, SessionKeys, Master, ClientKeyExchange, WrapRecord;
  }
}
