/** The handshake driver: from the ClientHello to a session whose Finished the server accepts. */
module Driver {
  import opened Bytes
  import opened Wrappers
  import opened Network
  import opened Primitives
  import opened Prf
  import opened Hello
  import opened Reassembly
  import opened Flights
  import opened RecordLayer

  /** What the random source returns for each draw of a connection; None is a failure. */
  datatype Randomness = Randomness(
    clientRandom: Option<Random32>, ecdhSeed: seq<byte>, premasterTail: Option<Random46>,
    sealSeed: seq<byte>, finishedIv: Option<Block>, recordIv: Option<Block>)

  // ----- the server's flight, as a list of messages -----

  datatype Negotiation = Negotiation(msgs: seq<seq<byte>>, params: CipherParams, serverRandom: seq<byte>)

  /** The messages up to and including the first ServerHelloDone. */
  function ThroughDone(ms: seq<seq<byte>>): (t: seq<seq<byte>>)
    requires HasDone(ms)
    ensures t <= ms && t != [] && IsDone(t[|t| - 1])
  {
    ms[..|BeforeDone(ms)| + 1]
  }

  predicate IsType(ms: seq<seq<byte>>, i: nat, msgType: byte) {
    i < |ms| && |ms[i]| >= 4 && ms[i][0] == msgType
  }

  /**
   Section 7.3 of RFC 5246 for the suites on offer: ServerHello, Certificate, ServerKeyExchange
   right after it under ECDHE, then anything up to ServerHelloDone.
   */
  function Negotiated(ms: seq<seq<byte>>): (n: Option<Negotiation>)
    ensures n.Some? ==> n.value.msgs <= ms
  {
    if !IsType(ms, 0, 0x02) || ParseServerHelloSuite(ms[0]).None? then None
    else
      var (suite, serverRandom) := ParseServerHelloSuite(ms[0]).value;
      var params := ParamsForSuite(suite);
      if params.None? || !IsType(ms, 1, 0x0b) then None
      else if params.value.ecdhe && !IsType(ms, 2, 0x0c) then None
      else if !HasDone(ms) then None
      else Some(Negotiation(ThroughDone(ms), params.value, serverRandom))
  }

  // ----- the server's flight, as the driver reads it -----

  function Expect(buf: seq<byte>, s: seq<byte>, msgType: byte): (o: Option<Taken>)
    ensures o.Some? ==> IsType(o.value.msgs, 0, msgType) && |o.value.msgs| == 1
  {
    match NextMessage(buf, s)
    case Message(msg, buf', s') => if msg[0] == msgType then Some(Taken([msg], buf', s')) else None
    case Failure(_) => None
  }

  function UntilDone(buf: seq<byte>, s: seq<byte>): Option<Taken>
    decreases |buf| + |s|
  {
    match NextMessage(buf, s)
    case Failure(_) => None
    case Message(msg, buf', s') =>
      if msg[0] == SERVER_HELLO_DONE then Some(Taken([msg], buf', s'))
      else
        match UntilDone(buf', s')
        case None => None
        case Some(t) => Some(t.(msgs := [msg] + t.msgs))
  }

  /** What the driver knows before it computes its key exchange. */
  datatype Opening = Opening(msgs: seq<seq<byte>>, params: CipherParams, serverRandom: seq<byte>,
                             buf: seq<byte>, stream: seq<byte>)

  function ReadOpening(s: seq<byte>): (o: Option<Opening>)
    ensures o.Some? ==> Supported(o.value.params) && |o.value.msgs| == if o.value.params.ecdhe then 3 else 2
  {
    match Expect([], s, SERVER_HELLO)
    case None => None
    case Some(hello) =>
      match ParseServerHelloSuite(hello.msgs[0])
      case None => None
      case Some((suite, serverRandom)) =>
        match ParamsForSuite(suite)
        case None => None
        case Some(params) => ReadCertificateOn(hello, params, serverRandom)
  }

  function ReadCertificateOn(hello: Taken, params: CipherParams, serverRandom: seq<byte>): (o: Option<Opening>)
    requires |hello.msgs| == 1
    ensures o.Some? ==> o.value.params == params && |o.value.msgs| == if params.ecdhe then 3 else 2
  {
    match Expect(hello.buf, hello.stream, CERTIFICATE)
    case None => None
    case Some(cert) =>
      var two := hello.msgs + cert.msgs;
      if !params.ecdhe then Some(Opening(two, params, serverRandom, cert.buf, cert.stream))
      else
        match Expect(cert.buf, cert.stream, SERVER_KEY_EXCHANGE)
        case None => None
        case Some(ske) => Some(Opening(two + ske.msgs, params, serverRandom, ske.buf, ske.stream))
  }

  datatype Read = Read(negotiation: Negotiation, stream: seq<byte>)

  function ReadNegotiation(s: seq<byte>): Option<Read> {
    match ReadOpening(s)
    case None => None
    case Some(o) => ReadRest(o)
  }

  function ReadRest(o: Opening): Option<Read> {
    match UntilDone(o.buf, o.stream)
    case None => None
    case Some(t) => Some(Read(Negotiation(o.msgs + t.msgs, o.params, o.serverRandom), t.stream))
  }

  // ----- the two agree, however the flight was cut into records -----

  lemma ExpectMeaning(buf: seq<byte>, s: seq<byte>, msgType: byte)
    ensures var ms, o, next := Messages(buf + Payload(s)), Expect(buf, s, msgType), NextMessage(buf, s);
            match o
            case Some(t) => && IsType(ms, 0, msgType) && t.msgs == ms[..1] && Messages(t.buf + Payload(t.stream)) == ms[1..]
                            && next.Message? && t.buf == next.buf && t.stream == next.stream
            case None => IsType(ms, 0, msgType) ==> next.Failure?
  {
    NextMeaning(buf, s);
  }

  /** Whether k further messages can be read. */
  predicate Readable(buf: seq<byte>, s: seq<byte>, k: nat) {
    TakeMessages(buf, s, k).Some?
  }

  lemma ReadableZero(buf: seq<byte>, s: seq<byte>)
    ensures Readable(buf, s, 0)
  {
  }

  lemma ReadableStep(buf: seq<byte>, s: seq<byte>, k: nat)
    requires k > 0
    ensures var next := NextMessage(buf, s);
            Readable(buf, s, k) <==> next.Message? && Readable(next.buf, next.stream, k - 1)
  {
  }

  /** The loop succeeds exactly when a ServerHelloDone is among the messages that can be read. */
  lemma {:induction false} UntilDoneMeaning(buf: seq<byte>, s: seq<byte>)
    ensures var ms := Messages(buf + Payload(s));
            && (UntilDone(buf, s).Some? <==> HasDone(ms) && Readable(buf, s, |ThroughDone(ms)|))
            && (UntilDone(buf, s).Some? ==> UntilDone(buf, s).value.msgs == ThroughDone(ms))
    decreases |buf| + |s|
  {
    hide Messages, NextMessage, Payload, HasDone, Readable, ThroughDone, BeforeDone, Reached;
    var ms := Messages(buf + Payload(s));
    NextFirst(buf, s);
    if HasDone(ms) {
      ReadableStep(buf, s, |ThroughDone(ms)|);
    }
    match NextMessage(buf, s)
    case Failure(_) =>
    case Message(msg, buf', s') =>
      HasDoneStep(ms);
      ReadableZero(buf', s');
      if msg[0] == SERVER_HELLO_DONE {
        ThroughDoneFirst(ms);
      } else {
        assert !IsDone(ms[0]) && ms[1..] == Messages(buf' + Payload(s'));
        UntilDoneMeaning(buf', s');
        if HasDone(ms) {
          ThroughDoneStep(ms);
        }
      }
  }

  lemma ThroughDoneFirst(ms: seq<seq<byte>>)
    requires ms != [] && IsDone(ms[0])
    ensures HasDone(ms) && ThroughDone(ms) == [ms[0]]
  {
    HasDoneStep(ms);
    BeforeDoneStep(ms);
  }

  lemma ThroughDoneStep(ms: seq<seq<byte>>)
    requires ms != [] && !IsDone(ms[0]) && HasDone(ms)
    ensures HasDone(ms[1..]) && ThroughDone(ms) == [ms[0]] + ThroughDone(ms[1..])
  {
    HasDoneStep(ms);
  }

  lemma ReadRestMeaning(ms: seq<seq<byte>>, k: nat, o: Opening)
    requires k <= |ms| && o.msgs == ms[..k] && Messages(o.buf + Payload(o.stream)) == ms[k..] && !HasDone(ms[..k])
    ensures HasDone(ms) ==> k < |ThroughDone(ms)|
    ensures match ReadRest(o)
            case Some(r) => && HasDone(ms) && r.negotiation == Negotiation(ThroughDone(ms), o.params, o.serverRandom)
                            && Readable(o.buf, o.stream, |ThroughDone(ms)| - k)
            case None => HasDone(ms) ==> !Readable(o.buf, o.stream, |ThroughDone(ms)| - k)
  {
    hide Readable, HasDone, ThroughDone, UntilDone, Messages, Payload;
    UntilDoneMeaning(o.buf, o.stream);
    ThroughDoneSplit(ms, k);
  }

  lemma ThroughDoneSplit(ms: seq<seq<byte>>, k: nat)
    requires k <= |ms| && !HasDone(ms[..k])
    ensures HasDone(ms) == HasDone(ms[k..])
    ensures HasDone(ms) ==> ThroughDone(ms) == ms[..k] + ThroughDone(ms[k..])
  {
    hide HasDone;
    assert ms == ms[..k] + ms[k..];
    BeforeDoneConcat(ms[..k], ms[k..]);
  }

  /**
   The driver accepts a flight exactly when its message list negotiates and each message is reached
   within the buffer limit; what it records is a function of the concatenated payload alone.
   */
  lemma ReadNegotiationMeaning(s: seq<byte>)
    ensures var ms, n := Messages(Payload(s)), Negotiated(Messages(Payload(s)));
            && (ReadNegotiation(s).Some? <==> n.Some? && AllReached([], s, ms, |n.value.msgs|))
            && (ReadNegotiation(s).Some? ==> n == Some(ReadNegotiation(s).value.negotiation))
  {
    hide *;
    var ms := Messages(Payload(s));
    assert [] + Payload(s) == Payload(s);
    ReadNegotiationReadable(s);
    if Negotiated(ms).Some? {
      var k := |Negotiated(ms).value.msgs|;
      TakeExact([], s, k);
      ReadableMeans([], s, k);
    }
  }

  lemma ReadableMeans(buf: seq<byte>, s: seq<byte>, k: nat)
    ensures Readable(buf, s, k) == TakeMessages(buf, s, k).Some?
  {
  }

  /** In particular every flight that negotiates is accepted when no message exceeds MAX_MESSAGE. */
  lemma BoundedFlightAccepted(s: seq<byte>)
    requires var n := Negotiated(Messages(Payload(s))); n.Some? && Bounded(n.value.msgs)
    ensures ReadNegotiation(s).Some?
  {
    hide *;
    var ms := Messages(Payload(s));
    var k := |Negotiated(ms).value.msgs|;
    assert [] + Payload(s) == Payload(s);
    assert ms[..k] == Negotiated(ms).value.msgs;
    ReadNegotiationMeaning(s);
    TakeMeaning([], s, k);
    TakeExact([], s, k);
  }

  lemma ReadNegotiationReadable(s: seq<byte>)
    ensures var n := Negotiated(Messages(Payload(s)));
            match ReadNegotiation(s)
            case Some(r) => n == Some(r.negotiation) && Readable([], s, |n.value.msgs|)
            case None => n.Some? ==> !Readable([], s, |n.value.msgs|)
  {
    hide *;
    var ms := Messages(Payload(s));
    assert [] + Payload(s) == Payload(s);
    ExpectMeaning([], s, SERVER_HELLO);
    NegotiatedStart(ms);
    if Negotiated(ms).Some? {
      ReadableStep([], s, |Negotiated(ms).value.msgs|);
    }
    ReadNegotiationStep(s);
    match Expect([], s, SERVER_HELLO)
    case None =>
    case Some(hello) =>
      NegotiatedStep(ms);
      if ParseServerHelloSuite(ms[0]).Some? && ParamsForSuite(ParseServerHelloSuite(ms[0]).value.0).Some? {
        var (suite, serverRandom) := ParseServerHelloSuite(ms[0]).value;
        ReadCertificateMeaning(ms, hello, ParamsForSuite(suite).value, serverRandom);
      }
  }

  lemma ReadNegotiationStep(s: seq<byte>)
    ensures ReadNegotiation(s) ==
            match Expect([], s, SERVER_HELLO)
            case None => None
            case Some(hello) =>
              match ParseServerHelloSuite(hello.msgs[0])
              case None => None
              case Some((suite, serverRandom)) =>
                match ParamsForSuite(suite)
                case None => None
                case Some(params) =>
                  match ReadCertificateOn(hello, params, serverRandom)
                  case None => None
                  case Some(o) => ReadRest(o)
  {
    hide Expect, ParseServerHelloSuite, ParamsForSuite, ReadCertificateOn, ReadRest;
  }

  lemma NegotiatedStart(ms: seq<seq<byte>>)
    ensures Negotiated(ms).Some? ==> IsType(ms, 0, SERVER_HELLO) && |Negotiated(ms).value.msgs| >= 1
  {
    hide ParseServerHelloSuite, ParamsForSuite;
  }

  /** What a flight that starts with a ServerHello negotiates. */
  lemma NegotiatedStep(ms: seq<seq<byte>>)
    requires IsType(ms, 0, SERVER_HELLO)
    ensures Negotiated(ms) ==
            match ParseServerHelloSuite(ms[0])
            case None => None
            case Some((suite, serverRandom)) =>
              match ParamsForSuite(suite)
              case None => None
              case Some(params) =>
                if OpensWith(ms, params) && HasDone(ms) then Some(Negotiation(ThroughDone(ms), params, serverRandom)) else None
  {
    hide HasDone, ThroughDone, ParseServerHelloSuite, ParamsForSuite;
  }

  /** Certificate and, under ECDHE, ServerKeyExchange follow the ServerHello. */
  predicate OpensWith(ms: seq<seq<byte>>, params: CipherParams) {
    IsType(ms, 0, SERVER_HELLO) && IsType(ms, 1, CERTIFICATE) && (params.ecdhe ==> IsType(ms, 2, SERVER_KEY_EXCHANGE))
  }

  lemma ReadCertificateMeaning(ms: seq<seq<byte>>, hello: Taken, params: CipherParams, serverRandom: seq<byte>)
    requires IsType(ms, 0, SERVER_HELLO) && hello.msgs == ms[..1] && Messages(hello.buf + Payload(hello.stream)) == ms[1..]
    ensures match ReadCertificateOn(hello, params, serverRandom)
            case Some(o) =>
              OpensWith(ms, params) && o.serverRandom == serverRandom &&
              match ReadRest(o) {
                case Some(r) => && HasDone(ms) && r.negotiation == Negotiation(ThroughDone(ms), params, serverRandom)
                                && Readable(hello.buf, hello.stream, |ThroughDone(ms)| - 1)
                case None => HasDone(ms) ==> !Readable(hello.buf, hello.stream, |ThroughDone(ms)| - 1)
              }
            case None => OpensWith(ms, params) && HasDone(ms) ==> !Readable(hello.buf, hello.stream, |ThroughDone(ms)| - 1)
  {
    hide Messages, Payload, NextMessage, ReadRest, Readable, Expect, HasDone, ThroughDone;
    ExpectMeaning(hello.buf, hello.stream, CERTIFICATE);
    TypeAt(ms, 1, CERTIFICATE);
    if HasDone(ms) && OpensWith(ms, params) {
      DoneComesLater(ms, if params.ecdhe then 3 else 2);
      ReadableStep(hello.buf, hello.stream, |ThroughDone(ms)| - 1);
    }
    match Expect(hello.buf, hello.stream, CERTIFICATE)
    case None =>
    case Some(cert) =>
      OneMore(ms, 1);
      if !params.ecdhe {
        NoneDone(ms, 2);
        ReadRestMeaning(ms, 2, ReadCertificateOn(hello, params, serverRandom).value);
      } else {
        ExpectMeaning(cert.buf, cert.stream, SERVER_KEY_EXCHANGE);
        TypeAt(ms, 2, SERVER_KEY_EXCHANGE);
        if HasDone(ms) && OpensWith(ms, params) {
          ReadableStep(cert.buf, cert.stream, |ThroughDone(ms)| - 2);
        }
        match Expect(cert.buf, cert.stream, SERVER_KEY_EXCHANGE)
        case None =>
        case Some(ske) =>
          OneMore(ms, 2);
          NoneDone(ms, 3);
          ReadRestMeaning(ms, 3, ReadCertificateOn(hello, params, serverRandom).value);
      }
  }

  lemma OneMore(ms: seq<seq<byte>>, k: nat)
    requires k < |ms|
    ensures ms[..k] + ms[k..][..1] == ms[..k + 1] && ms[k..][1..] == ms[k + 1..]
  {
  }

  lemma TypeAt(ms: seq<seq<byte>>, k: nat, msgType: byte)
    requires k <= |ms|
    ensures IsType(ms, k, msgType) == IsType(ms[k..], 0, msgType)
  {
  }

  lemma NoneDone(ms: seq<seq<byte>>, k: nat)
    requires k <= |ms| && forall i :: 0 <= i < k ==> !IsDone(ms[i])
    ensures !HasDone(ms[..k])
  {
  }

  /** The opening messages come before ServerHelloDone. */
  lemma DoneComesLater(ms: seq<seq<byte>>, k: nat)
    requires HasDone(ms) && k <= |ms| && forall i :: 0 <= i < k ==> !IsDone(ms[i])
    ensures |ThroughDone(ms)| > k
  {
    NoneDone(ms, k);
    ThroughDoneSplit(ms, k);
  }
}
