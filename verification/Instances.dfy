/**
 Concrete instances: a toy cryptography and servers that answer as RFC 5246 says, on which the promises
 that fail are seen to fail from the first byte to the verdict.
 */
module Instances {
  import opened Bytes
  import opened Wrappers
  import opened Network
  import opened Primitives
  import opened Prf
  import opened Hello
  import opened Reassembly
  import opened Flights
  import opened RecordLayer
  import opened Driver
  import opened Session
  import opened Server
  import opened Reactions
  import opened CbcOracle
  import EndToEnd

  // ----- the ingredients -----

  /** Block cipher and sealing are the identity, HMAC-SHA1 is constant, the other hashes keep one byte. */
  function Toy(): Crypto {
    Crypto(
      (key, data) => Fill(1, 20),
      (key: seq<byte>, data: seq<byte>) => Fill(if data == [] then 0 else data[|data| - 1], 32),
      (data: seq<byte>) => Fill(|data| % 0x100, 32),
      (key, block) => block,
      (key, block) => block,
      (curve, seed) => None,
      (curve, seed, point) => None,
      (pub, premaster, seed) => Some(premaster),
      der => Some(RsaPublicKey(1, 1)))
  }

  const DRAWN: Randomness :=
    Randomness(Some(Fill(0, 32)), [], Some(Fill(0, 46)), [], Some(Fill(0, 16)), Some(Fill(0, 16)))

  const TOY_HELLO: ServerHello := ServerHello(TLS12, Fill(0, 32), [], RSA_AES128_CBC_SHA, 0, None)
  const TOY_PARAMS: CipherParams := CipherParams(16, 20, 16, false)
  const TOY_SECRET: Secret := Decryption([[0]], (sealed: seq<byte>) => Some(sealed))

  function HelloMessage(): seq<byte> {
    EncodeServerHello(TOY_HELLO)
  }

  function CertificateMessage(): seq<byte> {
    WrapHandshake(CERTIFICATE, U24(|EncodeCertificates([[0]])|) + EncodeCertificates([[0]]))
  }

  /** A message without a body: four bytes for a HelloRequest or a ServerHelloDone. */
  function EmptyMessage(msgType: byte): seq<byte> {
    WrapHandshake(msgType, [])
  }

  /** RSA certificates, signed with RSA and SHA-256, from any authority: section 7.4.4 of RFC 5246. */
  function RequestMessage(): seq<byte> {
    WrapHandshake(CERTIFICATE_REQUEST, [1, 1, 0, 2, 4, 1, 0, 0])
  }

  /** What the server sends between Certificate and ServerHelloDone. */
  datatype Interlude = Nothing | Hello | Request

  function Between(x: Interlude): seq<seq<byte>> {
    match x
    case Nothing => []
    case Hello => [EmptyMessage(HELLO_REQUEST)]
    case Request => [RequestMessage()]
  }

  function ToyFlight(x: Interlude): seq<seq<byte>> {
    [HelloMessage(), CertificateMessage()] + Between(x) + [EmptyMessage(SERVER_HELLO_DONE)]
  }

  function ToyView(x: Interlude): ServerView {
    ServerView(TOY_HELLO, ToyFlight(x), TOY_SECRET)
  }

  const TOY_ACCEPTANCE: seq<byte> := [0x14, 0x03, 0x03, 0x00, 0x01, 0x01, 0x16, 0x03, 0x03, 0x00, 0x00]

  /** A fatal decrypt_error or handshake_failure, in the clear as before any ChangeCipherSpec of the server. */
  const TOY_REJECTION: seq<byte> := [0x15, 0x03, 0x03, 0x00, 0x02, 0x02, 0x28]

  /** The decision of section 7.4.9 on the client's four records. */
  ghost predicate ToyAccepts(x: Interlude, sent: seq<seq<byte>>)
    requires |sent| == 4
  {
    exists master, keys :: AcceptsFinished(Toy(), sent, ToyView(x), master, keys)
  }

  /** Sends the flight after the ClientHello, its Finished if it accepts the client's, and an answer to the next record. */
  ghost function ToyPeer(x: Interlude, answer: seq<byte> -> seq<byte>): Peer {
    Peer((sent: seq<seq<byte>>) =>
           if |sent| == 1 then [ToyStream(x)]
           else if |sent| == 4 then
             if ToyAccepts(x, sent) then [TOY_ACCEPTANCE] else [TOY_REJECTION]
           else if |sent| == 5 then [answer(sent[4])]
           else [],
         sent => true,
         sent => ConnectionClosed)
  }

  // ----- the handshake -----

  lemma SingleChunk(s: seq<byte>)
    ensures Flatten([s]) == s
  {
    assert [s][1..] == [];
    assert s + [] == s;
  }

  predicate IsFramed(m: seq<byte>, msgType: byte, length: nat) {
    |m| == length >= 4 && m[0] == msgType && MessageLength(m) == length
  }

  lemma WrapIsFramed(msgType: byte, body: seq<byte>)
    requires |body| < 0x100_0000
    ensures IsFramed(WrapHandshake(msgType, body), msgType, 4 + |body|)
  {
    WrapHandshakeParts(msgType, body);
  }

  lemma ToyMessages()
    ensures IsFramed(HelloMessage(), SERVER_HELLO, 42) && IsFramed(CertificateMessage(), CERTIFICATE, 11)
    ensures IsFramed(EmptyMessage(HELLO_REQUEST), HELLO_REQUEST, 4)
    ensures IsFramed(EmptyMessage(SERVER_HELLO_DONE), SERVER_HELLO_DONE, 4)
    ensures IsFramed(RequestMessage(), CERTIFICATE_REQUEST, 12)
    ensures ParseServerHelloSuite(HelloMessage()) == Some((RSA_AES128_CBC_SHA, Fill(0, 32)))
    ensures ParamsForSuite(RSA_AES128_CBC_SHA) == Some(TOY_PARAMS)
    ensures forall c: Crypto :: LeafKey(c, CertificateMessage()) == c.leafKey([0])
  {
    hide *;
    ToyHelloMessage();
    ToyCertificateMessage();
    ToyOtherMessages();
  }

  lemma ToyHelloMessage()
    ensures IsFramed(HelloMessage(), SERVER_HELLO, 42)
    ensures ParseServerHelloSuite(HelloMessage()) == Some((RSA_AES128_CBC_SHA, Fill(0, 32)))
    ensures ParamsForSuite(RSA_AES128_CBC_SHA) == Some(TOY_PARAMS)
  {
    hide ParseServerHelloSuite;
    ServerHelloParsers(TOY_HELLO, 0);
    WrapIsFramed(SERVER_HELLO, ServerHelloPrefix(TOY_HELLO) + []);
  }

  lemma ToyCertificateMessage()
    ensures IsFramed(CertificateMessage(), CERTIFICATE, 11)
    ensures forall c: Crypto :: LeafKey(c, CertificateMessage()) == c.leafKey([0])
  {
    assert EncodeCertificates([[0]]) == [0, 0, 1, 0] by {
      assert [[0]][1..] == [] && EncodeCertificates([]) == [];
    }
    LeafOfCertificate([[0]]);
    hide LeafCertificate;
    WrapIsFramed(CERTIFICATE, U24(4) + [0, 0, 1, 0]);
  }

  lemma ToyOtherMessages()
    ensures IsFramed(EmptyMessage(HELLO_REQUEST), HELLO_REQUEST, 4)
    ensures IsFramed(EmptyMessage(SERVER_HELLO_DONE), SERVER_HELLO_DONE, 4)
    ensures IsFramed(RequestMessage(), CERTIFICATE_REQUEST, 12)
  {
    WrapIsFramed(HELLO_REQUEST, []);
    WrapIsFramed(SERVER_HELLO_DONE, []);
    WrapIsFramed(CERTIFICATE_REQUEST, [1, 1, 0, 2, 4, 1, 0, 0]);
  }

  /** Whatever stands between Certificate and ServerHelloDone, an RSA flight negotiates. */
  lemma RsaFlightNegotiates(init: seq<seq<byte>>, last: seq<byte>, suite: uint16, random: seq<byte>, params: CipherParams)
    requires IsType(init, 0, SERVER_HELLO) && IsType(init, 1, CERTIFICATE) && IsDone(last) && !HasDone(init)
    requires ParseServerHelloSuite(init[0]) == Some((suite, random)) && ParamsForSuite(suite) == Some(params) && !params.ecdhe
    ensures var ms := init + [last];
            HasDone(ms) && ThroughDone(ms) == ms && Negotiated(ms) == Some(Negotiation(ms, params, random))
  {
    assert HasDone([last]) && BeforeDone([last]) == [];
    hide ParseServerHelloSuite, ParamsForSuite, HasDone, IsDone, BeforeDone;
    BeforeDoneConcat(init, [last]);
    assert (init + [last])[0] == init[0] && (init + [last])[1] == init[1];
  }

  lemma ToyFlightNegotiates(x: Interlude)
    ensures var ms := ToyFlight(x);
            && |ms| >= 3 && Framed(ms) && Bounded(ms) && HasDone(ms) && ThroughDone(ms) == ms
            && Negotiated(ms) == Some(Negotiation(ms, TOY_PARAMS, Fill(0, 32)))
  {
    ToyMessages();
    hide HelloMessage, CertificateMessage, EmptyMessage, RequestMessage, MessageLength, Negotiated, ThroughDone, ParseServerHelloSuite,
         ParamsForSuite;
    var ms := ToyFlight(x);
    var init := ms[..|ms| - 1];
    assert ms == init + [EmptyMessage(SERVER_HELLO_DONE)];
    RsaFlightNegotiates(init, EmptyMessage(SERVER_HELLO_DONE), RSA_AES128_CBC_SHA, Fill(0, 32), TOY_PARAMS);
  }

  /** A stream of one record is read to its end by the first message out of it. */
  lemma NextDrains(buf: seq<byte>, s: seq<byte>)
    requires s == [] || (StartsWithHandshake(s) && AfterFirst(s) == [] && !HasMessage(buf))
    ensures NextMessage(buf, s).Message? ==> NextMessage(buf, s).stream == []
  {
    hide HasMessage;
    assert FirstRecord([]) == Broken;
  }

  lemma {:induction false} UntilDoneDrains(buf: seq<byte>)
    ensures UntilDone(buf, []).Some? ==> UntilDone(buf, []).value.stream == []
    decreases |buf|
  {
    NextDrains(buf, []);
    if NextMessage(buf, []).Message? {
      UntilDoneDrains(NextMessage(buf, []).buf);
    }
  }

  lemma NegotiationDrains(s: seq<byte>)
    requires StartsWithHandshake(s) && AfterFirst(s) == []
    ensures ReadNegotiation(s).Some? ==> ReadNegotiation(s).value.stream == []
  {
    hide NextMessage, UntilDone, ParamsForSuite, ParseServerHelloSuite;
    NextDrains([], s);
    if ReadNegotiation(s).Some? {
      var hello := Expect([], s, SERVER_HELLO).value;
      NextDrains(hello.buf, []);
      var cert := Expect(hello.buf, [], CERTIFICATE).value;
      NextDrains(cert.buf, []);
      UntilDoneDrains(ReadOpening(s).value.buf);
    }
  }

  function ToyStream(x: Interlude): seq<byte> {
    WrapRecord(HANDSHAKE_RECORD, Flatten(ToyFlight(x)))
  }

  lemma ToyFlightLength(x: Interlude)
    ensures |Flatten(ToyFlight(x))| == match x case Nothing => 57 case Hello => 61 case Request => 69
  {
    ToyMessages();
    hide HelloMessage, CertificateMessage, EmptyMessage, RequestMessage, MessageLength, ParseServerHelloSuite, LeafKey;
    var start, done := [HelloMessage(), CertificateMessage()], [EmptyMessage(SERVER_HELLO_DONE)];
    FlattenConcat(start + Between(x), done);
    FlattenConcat(start, Between(x));
    FlattenConcat([HelloMessage()], [CertificateMessage()]);
    assert [HelloMessage()] + [CertificateMessage()] == start;
    SingleChunk(HelloMessage());
    SingleChunk(CertificateMessage());
    SingleChunk(EmptyMessage(SERVER_HELLO_DONE));
    SingleChunk(EmptyMessage(HELLO_REQUEST));
    SingleChunk(RequestMessage());
  }

  /** The driver reads the whole flight, and nothing is left behind it. */
  lemma ToyFlightRead(x: Interlude)
    ensures var r := ReadNegotiation(ToyStream(x));
            r == Some(Read(Negotiation(ToyFlight(x), TOY_PARAMS, Fill(0, 32)), []))
  {
    hide Messages, Payload, ReadNegotiation, Negotiated, ToyFlight, Bounded, Framed, Flatten, WrapRecord, HasDone,
         ThroughDone, StartsWithHandshake, AfterFirst;
    ToyFlightNegotiates(x);
    ToyFlightLength(x);
    StreamPayload(Flatten(ToyFlight(x)));
    MessagesOfFlatten(ToyFlight(x));
    ReadNegotiationMeaning(ToyStream(x));
    BoundedFlightAccepted(ToyStream(x));
    NegotiationDrains(ToyStream(x));
  }

  lemma StreamPayload(p: seq<byte>)
    requires 1 <= |p| < 0x1_0000
    ensures var s := WrapRecord(HANDSHAKE_RECORD, p);
            StartsWithHandshake(s) && AfterFirst(s) == [] && Fragments(s) == [p] && Payload(s) == p
  {
    var s := WrapRecord(HANDSHAKE_RECORD, p);
    assert s + [] == s && p + [] == p;
    RecordStart(p, []);
    hide WrapRecord;
    PayloadStep(s);
    assert Payload([]) == [];
  }

  // ----- the four records and the server's answer -----

  lemma ToyPeerTakes(x: Interlude, answer: seq<byte> -> seq<byte>, hello: seq<byte>)
    ensures Opened(ToyPeer(x, answer)) == Link([], [])
    ensures Written(ToyPeer(x, answer), Link([], []), hello) == Some(Link([hello], ToyStream(x)))
  {
    hide ToyStream, ToyView, AcceptsFinished;
    SingleChunk(ToyStream(x));
    assert [] + [hello] == [hello] && [] + ToyStream(x) == ToyStream(x);
  }

  lemma ToyReply(x: Interlude, answer: seq<byte> -> seq<byte>, sent: seq<seq<byte>>)
    ensures 2 <= |sent| <= 3 ==> Flatten(ToyPeer(x, answer).reply(sent)) == []
    ensures |sent| == 4 ==>
              Flatten(ToyPeer(x, answer).reply(sent)) == if ToyAccepts(x, sent) then TOY_ACCEPTANCE else TOY_REJECTION
    ensures ToyPeer(x, answer).accepts(sent)
  {
    hide Toy, ToyStream, ToyView, ToyAccepts;
    SingleChunk(TOY_ACCEPTANCE);
    SingleChunk(TOY_REJECTION);
  }

  lemma ToyPeerAnswers(x: Interlude, answer: seq<byte> -> seq<byte>)
    ensures AnswersAsServer(Toy(), ToyPeer(x, answer), ToyView(x))
    ensures forall sent :: ToyPeer(x, answer).accepts(sent)
  {
    hide Toy, ToyPeer, ToyView, AcceptsFinished, RecordTypes, FinishedWithin, Flatten;
    AnswerForms();
    forall sent: seq<seq<byte>>
      ensures 2 <= |sent| <= 3 ==> Flatten(ToyPeer(x, answer).reply(sent)) == []
      ensures |sent| == 4 ==>
                (FinishedWithin(RecordTypes(Flatten(ToyPeer(x, answer).reply(sent))), false, 6) <==> ToyAccepts(x, sent))
      ensures ToyPeer(x, answer).accepts(sent)
    {
      ToyReply(x, answer, sent);
    }
  }

  lemma AnswerForms()
    ensures FinishedWithin(RecordTypes(TOY_ACCEPTANCE), false, 6) && !FinishedWithin(RecordTypes(TOY_REJECTION), false, 6)
  {
    assert GetU16(TOY_ACCEPTANCE, 3) == 1 && GetU16(TOY_REJECTION, 3) == 2;
    var rest := TOY_ACCEPTANCE[6..];
    assert rest == [0x16, 0x03, 0x03, 0x00, 0x00] && rest[5..] == [] && TOY_REJECTION[7..] == [];
    assert RecordTypes(rest) == [0x16];
    assert RecordTypes(TOY_ACCEPTANCE) == [0x14, 0x16] && RecordTypes(TOY_REJECTION) == [0x15];
    assert FinishedAt([0x14, 0x16], false, 1);
  }

  lemma ToyWire(x: Interlude, answer: seq<byte> -> seq<byte>, host: seq<byte>)
    ensures WireMessages(ToyPeer(x, answer), host, Fill(0, 32)) == ToyFlight(x)
    ensures EndsWithFlight(ToyPeer(x, answer), host, Fill(0, 32))
    ensures AllReached([], ToyStream(x), ToyFlight(x), |ToyFlight(x)|)
  {
    hide CbcClientHelloRecord, Messages, Payload, Framed, ToyFlight, ToyPeer, WrapRecord, Flatten, Negotiated, ThroughDone,
         HasDone, Bounded, ReadNegotiation, AllReached, Written;
    ToyPeerTakes(x, answer, CbcClientHelloRecord(host, Fill(0, 32)));
    ToyFlightRead(x);
    ToyPayload(x);
    ReadNegotiationMeaning(ToyStream(x));
    ToyFlightNegotiates(x);
  }

  lemma ToyPayload(x: Interlude)
    ensures Messages(Payload(ToyStream(x))) == ToyFlight(x)
  {
    hide Messages, Payload, Framed, ToyFlight, Flatten, WrapRecord, Negotiated, ThroughDone, HasDone, Bounded;
    ToyFlightNegotiates(x);
    ToyFlightLength(x);
    StreamPayload(Flatten(ToyFlight(x)));
    MessagesOfFlatten(ToyFlight(x));
  }

  lemma ToyMatches(x: Interlude, answer: seq<byte> -> seq<byte>, host: seq<byte>)
    ensures Matches(Toy(), ToyPeer(x, answer), host, Fill(0, 32), ToyView(x))
    ensures AesInverts(Toy()) && EcdhCommutes(Toy())
  {
    hide WireMessages, ToyPeer, ThroughDone, HasDone, Negotiated, Holds, Framed, Bounded, EndsWithFlight, AllReached,
         CbcClientHelloRecord, HelloMessage, MessageLength, ParseServerHelloSuite, LeafKey;
    ToyLaws();
    ToyWire(x, answer, host);
    ToyFlightNegotiates(x);
    ToyHolds(x);
    ToyMessages();
    ToyFirst(x);
  }

  lemma ToyFirst(x: Interlude)
    ensures ToyFlight(x)[0] == EncodeServerHello(TOY_HELLO)
  {
  }

  lemma ToyLaws()
    ensures AesInverts(Toy()) && EcdhCommutes(Toy())
  {
  }

  lemma ToyHolds(x: Interlude)
    ensures Holds(Toy(), false, TOY_SECRET, ToyFlight(x))
  {
    ToyMessages();
    hide HelloMessage, EmptyMessage, RequestMessage, MessageLength, ParseServerHelloSuite, LeafKey;
  }

  const TOY_PREMASTER: seq<byte> := [0x03, 0x03] + Fill(0, 46)

  function ToyKeys(): Keys {
    SessionKeys(Toy(), TOY_PARAMS, MasterSecret(Toy(), TOY_PREMASTER, Fill(0, 32), Fill(0, 32)), Fill(0, 32), Fill(0, 32))
  }

  lemma ToyKex(x: Interlude)
    ensures KeyExchange(Toy(), DRAWN, TOY_PARAMS, ToyFlight(x)) == Some(Kex(TOY_PREMASTER, U16(48) + TOY_PREMASTER))
  {
    ToyMessages();
    hide LeafKey, HelloMessage, CertificateMessage, EmptyMessage, RequestMessage, MessageLength, ParseServerHelloSuite;
    assert ToyFlight(x)[1] == CertificateMessage();
  }

  lemma ToyExchange(x: Interlude)
    ensures ExchangeSucceeds(Toy(), DRAWN, Negotiation(ToyFlight(x), TOY_PARAMS, Fill(0, 32)))
  {
    hide KeyExchange, Toy, ToyFlight, Framed, Bounded, HasDone, ThroughDone, Negotiated;
    ToyKex(x);
    ToyFlightNegotiates(x);
  }

  lemma ToyWritten(x: Interlude, answer: seq<byte> -> seq<byte>, host: seq<byte>)
    ensures Handshake(Toy(), Some(ToyPeer(x, answer)), DRAWN, host).Some?
  {
    hide Toy, ExchangeSucceeds, ToyPeer, Handshake, Negotiated, Messages, Payload, AllReached, ToyFlight, ToyStream,
         CbcClientHelloRecord, Written, Framed, Bounded, HasDone, ThroughDone, WireMessages;
    ToyPeerTakes(x, answer, CbcClientHelloRecord(host, Fill(0, 32)));
    ToyPeerAnswers(x, answer);
    ToyWire(x, answer, host);
    ToyPayload(x);
    ToyFlightNegotiates(x);
    ToyExchange(x);
    HandshakeExact(Toy(), ToyPeer(x, answer), DRAWN, host);
  }

  lemma ToyHandshake(x: Interlude, answer: seq<byte> -> seq<byte>, host: seq<byte>)
    ensures var w := Handshake(Toy(), Some(ToyPeer(x, answer)), DRAWN, host);
            && w.Some? && w.value.keys == ToyKeys() && |w.value.link.sent| == 4 && |w.value.link.sent[1]| == 59
  {
    hide Toy, ToyPeer, Handshake, Negotiated, KeyExchange, ToyFlight, Matches, CbcClientHelloRecord, SessionKeys,
         MasterSecret, WireMessages, SendFinished, ClientKeyExchange, HandshakeMessages, FinishedRecord, Holds, WrapRecord;
    ToyWritten(x, answer, host);
    ToyKex(x);
    ToyMatches(x, answer, host);
    var peer := ToyPeer(x, answer);
    var w := Handshake(Toy(), Some(peer), DRAWN, host).value;
    var n, kex, link := HandshakeSplits(Toy(), peer, DRAWN, host, ToyView(x), w);
    FourRecords(Toy(), peer, DRAWN.finishedIv, CbcClientHelloRecord(host, Fill(0, 32)), Fill(0, 32), n, kex, link, w);
  }

  /** In this cryptography a Finished shows the length of its transcript modulo 256. */
  lemma FinishedShowsLength(master: seq<byte>, transcript: seq<byte>)
    ensures FinishedOver(Toy(), master, transcript)[4] == |transcript| % 0x100
  {
    var seed := Toy().sha256(transcript);
    PHashByte(Toy(), master, Ascii("client finished") + seed, 12, 0);
  }

  lemma ToyHashed()
    ensures Hashed(ToyFlight(Hello)) == ToyFlight(Nothing)
    ensures HasHelloRequest(ToyFlight(Hello)) && !HasHelloRequest(ToyFlight(Nothing))
  {
    ToyMessages();
    hide HelloMessage, CertificateMessage, EmptyMessage, RequestMessage, MessageLength, ParseServerHelloSuite, LeafKey;
    assert EmptyMessage(HELLO_REQUEST) in ToyFlight(Hello);
    var tail := [EmptyMessage(HELLO_REQUEST), EmptyMessage(SERVER_HELLO_DONE)];
    assert ToyFlight(Hello)[1..] == [CertificateMessage()] + tail && ToyFlight(Hello)[1..][1..] == tail;
    assert tail[1..] == [EmptyMessage(SERVER_HELLO_DONE)];
  }

  lemma ToyAsks()
    ensures HasCertificateRequest(ToyFlight(Request)) && !HasCertificateRequest(ToyFlight(Nothing))
  {
    ToyMessages();
    hide HelloMessage, CertificateMessage, EmptyMessage, RequestMessage, MessageLength, ParseServerHelloSuite, LeafKey;
    assert RequestMessage() in ToyFlight(Request);
  }

  /** The two transcripts differ in length by the four bytes of the HelloRequest. */
  lemma ToyFinishedDiffer(sent: seq<seq<byte>>, master: seq<byte>)
    requires |sent| >= 2 && |sent[0]| >= 5 && |sent[1]| >= 5
    ensures !FinishedCoincide(Toy(), master, sent, ToyFlight(Hello))
  {
    ToyHashed();
    ToyFlightLength(Hello);
    ToyFlightLength(Nothing);
    hide ToyFlight, Hashed, FinishedOver, Flatten;
    var longer, shorter := HandshakeMessages(sent, ToyFlight(Hello)), HandshakeMessages(sent, ToyFlight(Nothing));
    assert |longer| == |shorter| + 4;
    hide HandshakeMessages;
    LengthShows(master, longer, shorter);
  }

  lemma LengthShows(master: seq<byte>, longer: seq<byte>, shorter: seq<byte>)
    requires |longer| == |shorter| + 4
    ensures FinishedOver(Toy(), master, longer) != FinishedOver(Toy(), master, shorter)
  {
    FinishedShowsLength(master, longer);
    FinishedShowsLength(master, shorter);
    hide FinishedOver;
    assert (|shorter| + 4) % 0x100 != |shorter| % 0x100;
  }

  lemma ToyLets(host: seq<byte>, cke: seq<byte>)
    requires |host| <= MAX_HOST && |cke| == 59
    ensures LetsDerive(host, TOY_HELLO, cke)
  {
  }

  /** A server that answers as RFC 5246 says: the client gets a session exactly when nothing is sent between. */
  lemma ToySession(x: Interlude, answer: seq<byte> -> seq<byte>, host: seq<byte>)
    requires |host| <= MAX_HOST
    ensures var peer, sv := ToyPeer(x, answer), ToyView(x);
            var w, e := Handshake(Toy(), Some(peer), DRAWN, host), Establish(Toy(), Some(peer), DRAWN, host);
            && w.Some? && |w.value.link.sent| == 4
            && Matches(Toy(), peer, host, Fill(0, 32), sv) && AnswersAsServer(Toy(), peer, sv)
            && (exists master, keys :: Derives(Toy(), w.value.link.sent, sv, master, keys))
            && (e.Some? <==> x == Nothing)
            && ((exists master, keys :: AcceptsFinished(Toy(), w.value.link.sent, sv, master, keys)) <==> x == Nothing)
  {
    hide Toy, LetsDerive, ToyPeer, Handshake, Establish, Matches, AnswersAsServer, EndsWithFlight, Derives, AcceptsFinished, Hashed,
         HasHelloRequest, HasCertificateRequest, ToyFlight, FinishedCoincide, ToyKeys, FinishedWithin, RecordTypes, WireMessages;
    var peer, sv := ToyPeer(x, answer), ToyView(x);
    ToyHandshake(x, answer, host);
    ToyMatches(x, answer, host);
    ToyPeerAnswers(x, answer);
    ToyWire(x, answer, host);
    ToyHashed();
    ToyAsks();
    ToyLets(host, Handshake(Toy(), Some(peer), DRAWN, host).value.link.sent[1]);
    var w := Handshake(Toy(), Some(peer), DRAWN, host).value;
    ServerSession(Toy(), peer, DRAWN, host, sv);
    FinishedAccepted(Toy(), peer, DRAWN, host, sv, w);
    AcceptedDerives(Toy(), w.link.sent, sv);
    forall master ensures !FinishedCoincide(Toy(), master, w.link.sent, ToyFlight(Hello)) {
      ToyFinishedDiffer(w.link.sent, master);
    }
  }

  /**
   A HelloRequest between Certificate and ServerHelloDone: the server that sent it holds the client's
   keys, rejects its Finished, and the client gets no session.
   */
  lemma HelloRequestRejected(answer: seq<byte> -> seq<byte>, host: seq<byte>)
    requires |host| <= MAX_HOST
    ensures var w := Handshake(Toy(), Some(ToyPeer(Hello, answer)), DRAWN, host);
            && w.Some? && |w.value.link.sent| == 4
            && (exists master, keys :: Derives(Toy(), w.value.link.sent, ToyView(Hello), master, keys))
            && (forall master, keys :: !AcceptsFinished(Toy(), w.value.link.sent, ToyView(Hello), master, keys))
            && Establish(Toy(), Some(ToyPeer(Hello, answer)), DRAWN, host) == None
  {
    hide *;
    ToySession(Hello, answer, host);
  }

  /** The same with a CertificateRequest, which the client passes over. */
  lemma CertificateRequestRejected(answer: seq<byte> -> seq<byte>, host: seq<byte>)
    requires |host| <= MAX_HOST
    ensures var w := Handshake(Toy(), Some(ToyPeer(Request, answer)), DRAWN, host);
            && w.Some? && |w.value.link.sent| == 4
            && Negotiated(ToyFlight(Request)).Some?
            && (exists master, keys :: Derives(Toy(), w.value.link.sent, ToyView(Request), master, keys))
            && (forall master, keys :: !AcceptsFinished(Toy(), w.value.link.sent, ToyView(Request), master, keys))
            && Establish(Toy(), Some(ToyPeer(Request, answer)), DRAWN, host) == None
  {
    hide *;
    ToySession(Request, answer, host);
    ToyFlightNegotiates(Request);
  }

  /** The same run with neither: the server accepts and the client has a session. */
  lemma PlainFlightAccepted(answer: seq<byte> -> seq<byte>, host: seq<byte>)
    requires |host| <= MAX_HOST
    ensures var w, e := Handshake(Toy(), Some(ToyPeer(Nothing, answer)), DRAWN, host),
                        Establish(Toy(), Some(ToyPeer(Nothing, answer)), DRAWN, host);
            && w.Some? && |w.value.link.sent| == 4 && e.Some?
            && exists master, keys :: AcceptsFinished(Toy(), w.value.link.sent, ToyView(Nothing), master, keys)
  {
    hide *;
    ToySession(Nothing, answer, host);
  }

  // ----- seven sessions -----

  /** On connection i the server answers the crafted record by answers(i). */
  ghost function ToyWorld(answers: nat -> (seq<byte> -> seq<byte>)): World {
    World((i: nat) => Some(ToyPeer(Nothing, answers(i))), (i: nat) => DRAWN)
  }

  ghost function ToySessions(answers: nat -> (seq<byte> -> seq<byte>), host: seq<byte>): nat -> Option<Live> {
    Sessions(Toy(), ToyWorld(answers), host)
  }

  ghost predicate IsToySession(s: Option<Live>, answer: seq<byte> -> seq<byte>) {
    && s.Some? && s.value.peer == ToyPeer(Nothing, answer) && s.value.keys == ToyKeys()
    && s.value.iv == Some(Fill(0, 16)) && |s.value.link.sent| == 4 && s.value.link.stream == []
  }

  lemma ToyLive(answers: nat -> (seq<byte> -> seq<byte>), host: seq<byte>, i: nat)
    requires |host| <= MAX_HOST
    ensures IsToySession(ToySessions(answers, host)(i), answers(i))
  {
    hide Toy, Handshake, AwaitFinished, Advance, ToyPeer, ToyKeys, Derives, AcceptsFinished, Matches, AnswersAsServer, ToyView;
    ToySession(Nothing, answers(i), host);
    ToyHandshake(Nothing, answers(i), host);
    ToyAnswerRead(answers(i), host);
    AcceptanceAwaited();
  }

  lemma AcceptanceAwaited()
    ensures AwaitFinished(TOY_ACCEPTANCE, 6, false) == Await(true, 1, [])
  {
    hide AwaitFinished;
    assert GetU16(TOY_ACCEPTANCE, 3) == 1;
    var rest := TOY_ACCEPTANCE[6..];
    assert rest == [0x16, 0x03, 0x03, 0x00, 0x00] && rest[5..] == [];
    AwaitStep(TOY_ACCEPTANCE, 6, false);
    AwaitStep(rest, 5, true);
  }

  /** The unread bytes after the four records are the server's acceptance. */
  lemma ToyAnswerRead(answer: seq<byte> -> seq<byte>, host: seq<byte>)
    requires |host| <= MAX_HOST
    ensures var w := Handshake(Toy(), Some(ToyPeer(Nothing, answer)), DRAWN, host);
            w.Some? && w.value.link.stream == TOY_ACCEPTANCE
  {
    hide Toy, Handshake, Establish, ToyPeer, Matches, AnswersAsServer, Derives, AcceptsFinished, ToyView, Flatten,
         ReadNegotiation, Written, CbcClientHelloRecord;
    ToySession(Nothing, answer, host);
    var peer := ToyPeer(Nothing, answer);
    var w := Handshake(Toy(), Some(peer), DRAWN, host).value;
    var left := AnswerRead(Toy(), peer, DRAWN, host, w);
    ToyWire(Nothing, answer, host);
    ToyReply(Nothing, answer, w.link.sent[..2]);
    ToyReply(Nothing, answer, w.link.sent[..3]);
    ToyReply(Nothing, answer, w.link.sent);
    assert [] + [] + [] + TOY_ACCEPTANCE == TOY_ACCEPTANCE;
  }

  lemma ToyExchanged(live: Live, answer: seq<byte> -> seq<byte>, record: seq<byte>)
    requires IsToySession(Some(live), answer)
    ensures Written(live.peer, live.link, record) == Some(Link(live.link.sent + [record], answer(record)))
  {
    hide Toy, ToyKeys, ToyStream, ToyAccepts;
    SingleChunk(answer(record));
    assert [] + answer(record) == answer(record);
  }

  /** The bytes answer(record) show the decoding of the record as the policy says. */
  ghost predicate Shows(answer: seq<byte> -> seq<byte>, p: Policy) {
    forall record: seq<byte>, sent: seq<seq<byte>> ::
      CbcReactionAt(ToyPeer(Nothing, answer), Link(sent, answer(record))) == React(p, ServerReceives(Toy(), ToyKeys(), 1, record))
  }

  lemma ToyDecodes(answers: nat -> (seq<byte> -> seq<byte>), host: seq<byte>, p: nat -> Policy)
    requires |host| <= MAX_HOST && forall i: nat :: Shows(answers(i), p(i))
    ensures DecodingServer(Toy(), ToySessions(answers, host), host, p)
    ensures ProbeCompletes(Toy(), ToySessions(answers, host), host)
  {
    hide IsToySession, ToySessions, Shows, Exchange, TakesStimulus, ProbeCompletes, Toy;
    forall i: nat
      ensures var s := ToySessions(answers, host)(i);
              && s.Some? && TakesStimulus(Toy(), s.value, host, VectorAt(i))
              && s.value.iv.Some?
              && Exchange(Toy(), ToySessions(answers, host), host, VectorAt(i), i) ==
                 Some(React(p(i), ServerReceives(Toy(), s.value.keys, 1, Stimulus(Toy(), s.value, host, VectorAt(i)))))
    {
      ToyLive(answers, host, i);
      ToyShown(answers, host, p(i), i);
    }
    ProbeCompletesExact(Toy(), ToySessions(answers, host), host);
  }

  lemma ToyShown(answers: nat -> (seq<byte> -> seq<byte>), host: seq<byte>, p: Policy, i: nat)
    requires IsToySession(ToySessions(answers, host)(i), answers(i)) && Shows(answers(i), p)
    ensures ToySessions(answers, host)(i).Some?
    ensures var live := ToySessions(answers, host)(i).value;
            && live.iv.Some? && TakesStimulus(Toy(), live, host, VectorAt(i))
            && Exchange(Toy(), ToySessions(answers, host), host, VectorAt(i), i) ==
               Some(React(p, ServerReceives(Toy(), live.keys, 1, Stimulus(Toy(), live, host, VectorAt(i)))))
  {
    hide ToySessions, SealAttempt, ServerReceives, HttpRequest, Toy, ToyKeys, CbcReactionAt, ToyPeer, React;
    var live := ToySessions(answers, host)(i).value;
    ToyKeyLength();
    var record := Stimulus(Toy(), live, host, VectorAt(i));
    ToyExchanged(live, answers(i), record);
    assert live.peer.accepts(live.link.sent + [record]) by {
      ToyReply(Nothing, answers(i), live.link.sent + [record]);
    }
  }

  lemma ToyKeyLength()
    ensures |ToyKeys().clientKey| == 16
  {
    hide SessionKeys, MasterSecret, Toy;
  }

  /** The constant MAC collides with no filler window, for requests of whole blocks less 4 bytes or a block. */
  lemma ToyNoCollisions(answers: nat -> (seq<byte> -> seq<byte>), host: seq<byte>)
    requires |host| == 15 || |host| == 11
    ensures NoCollisions(Toy(), ToySessions(answers, host), host)
  {
    hide ToySessions, HttpRequest;
    forall macKey: seq<byte>, vec: CbcVector ensures !Collides(Toy(), macKey, host, vec) {
      ToyCollides(macKey, host, vec);
    }
  }

  lemma ToyCollides(macKey: seq<byte>, host: seq<byte>, vec: CbcVector)
    requires |host| == 15 || |host| == 11
    ensures !Collides(Toy(), macKey, host, vec)
  {
    hide HttpRequest, MacInput, ZeroPadClaimed, Pad255Claimed, CheckPlaintext;
    var content := HttpRequest(host);
    assert StimulusFits(host, vec);
    var mac := Toy().hmacSha1(macKey, MacInput(1, APPLICATION_DATA_RECORD, content));
    assert ZeroPadFill(|content|) > 0 && ZeroPadWindow(mac, |content|)[19] == 0;
    assert Pad255Fill(|content|) > 0 ==> Pad255Window(|content|)[0] == 255;
    assert Toy().hmacSha1(macKey, MacInput(1, APPLICATION_DATA_RECORD, Pad255Claimed(mac, content)))[0] == 1;
    assert Toy().hmacSha1(macKey, MacInput(1, APPLICATION_DATA_RECORD, ZeroPadClaimed(mac, content)))[19] == 1;
  }

  /** These servers meet every hypothesis of the verdict from the wire. */
  lemma ToyServersAreRfc(answers: nat -> (seq<byte> -> seq<byte>), host: seq<byte>, p: nat -> Policy, i: nat)
    requires |host| <= MAX_HOST && forall k: nat :: Shows(answers(k), p(k))
    ensures EndToEnd.RfcServer(Toy(), ToyWorld(answers), host, k => ToyView(Nothing), i)
    ensures 1 <= i <= 6 ==> EndToEnd.DecodesUnderOwnKeys(Toy(), ToyWorld(answers), host, ToyView(Nothing), p(i), i)
  {
    hide Toy, ToyPeer, ToyView, Matches, AnswersAsServer, EndsWithFlight, Handshake, Establish, Derives, AcceptsFinished,
         SessionAt, Exchange, TakesStimulus, React, ServerReceives, Shows, EndToEnd.Allows;
    ToySession(Nothing, answers(i), host);
    ToyWire(Nothing, answers(i), host);
    ToyLaws();
    EndToEnd.SessionAgreed(Toy(), ToyWorld(answers), host, k => ToyView(Nothing), i);
    ToyDecodes(answers, host, p);
  }

  // ----- a hardened server, reported as vulnerable -----

  const DATA_ANSWER: seq<byte> := [0x17, 0x03, 0x03, 0x00, 0x00]

  /** Data for an accepted record; every rejected one just ends the connection. */
  function HardenedAnswer(): seq<byte> -> seq<byte> {
    (record: seq<byte>) => if ServerReceives(Toy(), ToyKeys(), 1, record).Accepted? then DATA_ANSWER else []
  }

  const HARDENED: Policy := Policy(Reaction(Closed, 0, 0), Reaction(Closed, 0, 0), Reaction(Closed, 0, 0),
                                   content => Reaction(Data, 0, 0))

  lemma HardenedShows()
    ensures Shows(HardenedAnswer(), HARDENED)
  {
    hide Toy, ToyKeys, ServerReceives, ToyAccepts, ToyStream;
  }

  /**
   From the dial to the verdict: this server completes every handshake, closes on every rejected
   record, and the probe reports GOLDENDOODLE and Zombie POODLE for it.
   */
  lemma HardenedServerReported()
    ensures var host, answers := Ascii("www.example.com"), (i: nat) => HardenedAnswer();
            && DecodingServer(Toy(), ToySessions(answers, host), host, Constantly(HARDENED))
            && NoCollisions(Toy(), ToySessions(answers, host), host)
            && ProbeCompletes(Toy(), ToySessions(answers, host), host)
            && Probe(Toy(), ToySessions(answers, host), host) == CbcResult(true, true, false, false)
  {
    hide ToySessions, DecodingServer, NoCollisions, ProbeCompletes, Probe, HardenedAnswer, Toy, Shows;
    var host, answers := Ascii("www.example.com"), (i: nat) => HardenedAnswer();
    HardenedShows();
    ToyLaws();
    ToyDecodes(answers, host, Constantly(HARDENED));
    ToyNoCollisions(answers, host);
    HardenedServerFlagged(Toy(), ToySessions(answers, host), HARDENED);
  }

  // ----- a server with encrypted alerts, reported as vulnerable -----

  /** The same IV on both connections of a vector, another one for each vector. */
  function VectorIv(i: nat): Block {
    Fill(if i <= 2 then 1 else if i <= 4 then 2 else 3, 16)
  }

  /** bad_record_mac, fatal, under the server's keys as its record 1 after its Finished. */
  function SealedAlert(iv: Block): seq<byte> {
    Seal(Toy(), Reversed(ToyKeys()), 1, ALERT_RECORD, [2, 20], false, -1, iv)
  }

  function AlertingAnswer(iv: Block): seq<byte> -> seq<byte> {
    (record: seq<byte>) => if ServerReceives(Toy(), ToyKeys(), 1, record).Accepted? then DATA_ANSWER else SealedAlert(iv)
  }

  lemma AlertingShows(iv: Block)
    ensures Shows(AlertingAnswer(iv), Encrypting(i => iv, content => Reaction(Data, 0, 0))(0))
  {
    hide Toy, ToyKeys, ServerReceives, ToyPeer, SealedAlert, CbcReactionAt;
    forall sent: seq<seq<byte>>
      ensures CbcReactionAt(ToyPeer(Nothing, AlertingAnswer(iv)), Link(sent, SealedAlert(iv))) == AlertOf(iv)
      ensures CbcReactionAt(ToyPeer(Nothing, AlertingAnswer(iv)), Link(sent, DATA_ANSWER)) == Reaction(Data, 0, 0)
    {
      SealedAlertRead(ToyPeer(Nothing, AlertingAnswer(iv)), Link(sent, SealedAlert(iv)), iv);
      DataRead(ToyPeer(Nothing, AlertingAnswer(iv)), Link(sent, DATA_ANSWER));
    }
  }

  lemma SealedAlertRead(peer: Peer, link: Link, iv: Block)
    requires link.stream == SealedAlert(iv)
    ensures CbcReactionAt(peer, link) == AlertOf(iv)
  {
    hide Toy, ToyKeys, Seal;
    EncryptedAlertRead(Toy(), peer, link, ToyKeys(), 1, [2, 20], iv);
  }

  lemma DataRead(peer: Peer, link: Link)
    requires link.stream == DATA_ANSWER
    ensures CbcReactionAt(peer, link) == Reaction(Data, 0, 0)
  {
  }

  lemma RejectedPad(host: seq<byte>)
    requires |host| == 11
    ensures DecodedAs(host, VecBadPad) == BadMac
  {
    hide HttpRequest;
  }

  /**
   A server that rejects every manipulated record with the same encrypted alert, on a host where all
   of them are rejected: its IVs alone make the probe report three vulnerabilities.
   */
  lemma EncryptedAlertsReported()
    ensures var host, answers := Ascii("example.com"), (i: nat) => AlertingAnswer(VectorIv(i));
            && DecodingServer(Toy(), ToySessions(answers, host), host, Encrypting(VectorIv, content => Reaction(Data, 0, 0)))
            && NoCollisions(Toy(), ToySessions(answers, host), host)
            && ProbeCompletes(Toy(), ToySessions(answers, host), host)
            && Probe(Toy(), ToySessions(answers, host), host) == CbcResult(true, false, true, true)
  {
    hide ToySessions, DecodingServer, NoCollisions, ProbeCompletes, Probe, AlertingAnswer, Toy, Shows, HttpRequest;
    var host, answers := Ascii("example.com"), (i: nat) => AlertingAnswer(VectorIv(i));
    var p := Encrypting(VectorIv, content => Reaction(Data, 0, 0));
    forall i: nat ensures Shows(answers(i), p(i)) {
      AlertingShows(VectorIv(i));
    }
    ToyLaws();
    ToyDecodes(answers, host, p);
    ToyNoCollisions(answers, host);
    EncryptedAlerts(Toy(), ToySessions(answers, host), host, VectorIv, content => Reaction(Data, 0, 0));
    assert Shown(p, host, 3) == AlertOf(VectorIv(3)) by {
      RejectedPad(host);
    }
  }
}
