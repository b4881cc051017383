/** Concrete instances for the ROBOT probe: a server that it flags, one that crashes it, and keys it should not have. */
module RobotInstances {
  import opened Bytes
  import opened Wrappers
  import opened Network
  import opened Primitives
  import opened Hello
  import opened Reassembly
  import opened Flights
  import opened Rsa
  import opened RsaKeys
  import opened Reactions
  import opened Robot
  import Instances

  // ----- flights in one record -----

  /** A cryptography whose certificates all carry this key. */
  function WithKey(pub: RsaKey): Crypto {
    Instances.Toy().(leafKey := (der: seq<byte>) => Some(pub))
  }

  /** A ServerHello for the suite, and a certificate. */
  function Beginning(suite: uint16): seq<seq<byte>> {
    [EncodeServerHello(Instances.TOY_HELLO.(suite := suite)), Instances.CertificateMessage()]
  }

  function OneRecord(ms: seq<seq<byte>>): seq<byte> {
    WrapRecord(HANDSHAKE_RECORD, Flatten(ms))
  }

  lemma BeginningShape(suite: uint16)
    ensures var ms := Beginning(suite);
            && Reassembly.Framed(ms) && |ms[0]| == 42 && |ms[1]| == 11
            && !HasDone(ms) && SawHello(ms) && (SelectsOther(ms[0]) <==> suite !in RSA_KEX_SUITES)
    ensures forall pub: RsaKey ::
              LastKey(WithKey(pub), Beginning(suite)) == Some(pub) && CarriesKey(WithKey(pub), Beginning(suite)[1])
  {
    var ms, hello := Beginning(suite), Instances.TOY_HELLO.(suite := suite);
    Instances.ToyMessages();
    SelectsEncoded(hello);
    hide ParseServerHelloSuite, LeafKey, Instances.CertificateMessage, SelectsOther;
    Instances.WrapIsFramed(SERVER_HELLO, ServerHelloPrefix(hello) + []);
    assert ms[0] in ms;
  }

  /** What the reader makes of one record of messages before any ServerHelloDone, after which nothing comes. */
  lemma ReadUnfinished(c: Crypto, ms: seq<seq<byte>>)
    requires Reassembly.Framed(ms) && !HasDone(ms) && 1 <= |Flatten(ms)| < 0x1_0000
    ensures var r := ReadFlight(c, [], OneRecord(ms), NOTHING, 16); !r.done && r.pub == LastKey(c, ms)
    ensures |Fragments(OneRecord(ms))| == 1 && Stops(OneRecord(ms), 1) && NotedBy(OneRecord(ms), 1) == ms
  {
    hide ReadFlight, Messages, HasDone, LastKey, Flatten, Fragments, BeforeDone, StartsWithHandshake, FirstBody, AfterFirst,
         WrapRecord, FirstRecord;
    var s := OneRecord(ms);
    RecordMessages(ms);
    assert [] + Upto(s, 1) == Upto(s, 1);
    NothingLeft();
    assert Stops(s, 1) by {
      hide Upto;
    }
    assert AfterRecords(s, 1) == AfterRecords(AfterFirst(s), 0) == [];
    ReadFlightKey(c, s, 1);
    NotDone(c, s, ms);
  }

  lemma NothingLeft()
    ensures FirstRecord([]) == Broken
  {
  }

  lemma NotDone(c: Crypto, s: seq<byte>, ms: seq<seq<byte>>)
    requires |Fragments(s)| == 1 && Messages(Payload(s)) == ms && !HasDone(ms)
    ensures !ReadFlight(c, [], s, NOTHING, 16).done
  {
    hide ReadFlight, Messages, Payload, HasDone;
    ReadFlightExact(c, s);
  }

  lemma RecordMessages(ms: seq<seq<byte>>)
    requires Reassembly.Framed(ms) && 1 <= |Flatten(ms)| < 0x1_0000
    ensures var s := OneRecord(ms);
            && StartsWithHandshake(s) && AfterFirst(s) == [] && |Fragments(s)| == 1 && Upto(s, 1) == Flatten(ms)
            && Messages(Upto(s, 1)) == Messages(Payload(s)) == ms && Leftover(Upto(s, 1)) == []
  {
    hide Messages, Leftover, WrapRecord, Reassembly.Framed;
    Instances.StreamPayload(Flatten(ms));
    MessagesOfFlatten(ms);
    Instances.SingleChunk(Flatten(ms));
    var frags := Fragments(OneRecord(ms));
    assert frags[..1] == [Flatten(ms)];
  }

  /** What the reader makes of a whole flight in one record. */
  lemma ReadFinished(c: Crypto, before: seq<seq<byte>>, last: seq<byte>, pub: RsaKey)
    requires Reassembly.Framed(before + [last]) && !HasDone(before) && IsDone(last) && 1 <= |Flatten(before + [last])| < 0x1_0000
    requires SawHello(before) && LastKey(c, before) == Some(pub)
    ensures var r := ReadFlight(c, [], OneRecord(before + [last]), NOTHING, 16); r.done && r.pub == Some(pub)
    ensures var s := OneRecord(before + [last]); |Fragments(s)| == 1 && Stops(s, 0) && NotedBy(s, 0) == before
  {
    hide ReadFlight, Messages, HasDone, LastKey, Flatten, Fragments, BeforeDone, StartsWithHandshake, AfterFirst, WrapRecord,
         SawHello, Upto, IsDone;
    var s := OneRecord(before + [last]);
    RecordMessages(before + [last]);
    OnlyDone(last);
    BeforeDoneConcat(before, [last]);
    assert before + [] == before;
    assert [] + Upto(s, 1) == Upto(s, 1);
    assert FlightDone(c, s, 1);
    ReadFlightExact(c, s);
  }

  lemma OnlyDone(last: seq<byte>)
    requires IsDone(last)
    ensures HasDone([last]) && BeforeDone([last]) == []
  {
    assert last in [last];
  }

  // ----- two broken promises about the key -----

  lemma BeginningLength(suite: uint16)
    ensures |Flatten(Beginning(suite))| == 53
  {
    hide Beginning;
    BeginningShape(suite);
    var ms := Beginning(suite);
    BeginningPair(suite);
    FlattenConcat([ms[0]], [ms[1]]);
    assert [ms[0]] + [ms[1]] == ms;
    Instances.SingleChunk(ms[0]);
    Instances.SingleChunk(ms[1]);
  }

  lemma BeginningPair(suite: uint16)
    ensures |Beginning(suite)| == 2
  {
  }

  /** A flight that stops after the certificate still yields its key. */
  lemma UnfinishedYieldsKey(pub: RsaKey, suite: uint16)
    ensures var r := ReadFlight(WithKey(pub), [], OneRecord(Beginning(suite)), NOTHING, 16);
            !r.done && r.pub == Some(pub)
  {
    hide *;
    BeginningShape(suite);
    BeginningLength(suite);
    ReadUnfinished(WithKey(pub), Beginning(suite));
  }

  function WholeFlight(suite: uint16): seq<seq<byte>> {
    Beginning(suite) + [Instances.EmptyMessage(SERVER_HELLO_DONE)]
  }

  lemma WholeFlightRead(pub: RsaKey, suite: uint16)
    ensures var r := ReadFlight(WithKey(pub), [], OneRecord(WholeFlight(suite)), NOTHING, 16);
            r.done && r.pub == Some(pub)
  {
    hide LastKey, HasDone, Flatten, ReadFlight, OneRecord, Beginning, SawHello, Instances.CertificateMessage,
         Instances.EmptyMessage, MessageLength, ParseServerHelloSuite, LeafKey;
    var last := Instances.EmptyMessage(SERVER_HELLO_DONE);
    Instances.ToyMessages();
    BeginningShape(suite);
    BeginningLength(suite);
    FlattenConcat(Beginning(suite), [last]);
    Instances.SingleChunk(last);
    ReadFinished(WithKey(pub), Beginning(suite), last, pub);
  }

  /** ECDHE_RSA_AES128_CBC_SHA is not offered and not an RSA key exchange, and the reader returns the key all the same. */
  lemma EcdheYieldsKey(pub: RsaKey)
    ensures SelectsOther(WholeFlight(0xc013)[0])
    ensures var r := ReadFlight(WithKey(pub), [], OneRecord(WholeFlight(0xc013)), NOTHING, 16);
            r.done && r.pub == Some(pub)
  {
    hide ReadFlight, OneRecord, SelectsOther, Beginning, LastKey, CarriesKey, HasDone, SawHello, Reassembly.Framed;
    WholeFlightRead(pub, 0xc013);
    BeginningShape(0xc013);
    BeginningPair(0xc013);
    assert WholeFlight(0xc013)[0] == Beginning(0xc013)[0];
  }

  // ----- a padding oracle -----

  const ORACLE: Policy := Policy(Reaction(Alert, 2, 51), Reaction(Alert, 2, 47), Reaction(Alert, 2, 20))

  function AlertBytes(r: Reaction): seq<byte> {
    [ALERT_RECORD, 0x03, 0x03, 0x00, 0x02, r.alertLevel, r.alertDesc]
  }

  /** Sends the flight after the ClientHello, decrypts the key exchange, and answers the burst by what it reads. */
  function OraclePeer(pub: RsaKey, d: nat): Peer {
    Peer((sent: seq<seq<byte>>) =>
           if |sent| == 1 then [OneRecord(WholeFlight(0x002f))]
           else if |sent| == 4 then [AlertBytes(React(ORACLE, ServerReads(pub, d, sent[1])))]
           else [],
         sent => true,
         sent => ConnectionClosed)
  }

  function OracleWorld(pub: RsaKey, d: nat, tails: nat -> Random46): World {
    World((i: nat) => Some(OraclePeer(pub, d)), tails)
  }

  function OracleFlights(pub: RsaKey, d: nat, tails: nat -> Random46, host: seq<byte>): nat -> Option<FlightLink> {
    OpenFlights(WithKey(pub), OracleWorld(pub, d, tails), host)
  }

  lemma OracleTakes(pub: RsaKey, d: nat, link: Link, data: seq<byte>)
    ensures var sent := link.sent + [data];
            Written(OraclePeer(pub, d), link, data) ==
            Some(Link(sent, link.stream + if |sent| == 1 then OneRecord(WholeFlight(0x002f))
                                          else if |sent| == 4 then AlertBytes(React(ORACLE, ServerReads(pub, d, sent[1])))
                                          else []))
    ensures Opened(OraclePeer(pub, d)) == Link([], [])
  {
    hide ServerReads, AlertBytes, OneRecord, WholeFlight;
    var sent := link.sent + [data];
    Instances.SingleChunk(OneRecord(WholeFlight(0x002f)));
    if |sent| == 4 {
      Instances.SingleChunk(AlertBytes(React(ORACLE, ServerReads(pub, d, sent[1]))));
    }
  }

  /** A connection after the whole flight, with nothing left unread. */
  ghost predicate IsOracleFlight(f: Option<FlightLink>, pub: RsaKey, d: nat, hello: seq<byte>) {
    f == Some(FlightLink(OraclePeer(pub, d), true, Some(pub), Link([hello], [])))
  }

  lemma OracleFlight(pub: RsaKey, d: nat, tails: nat -> Random46, host: seq<byte>, i: nat)
    ensures IsOracleFlight(OracleFlights(pub, d, tails, host)(i), pub, d, RobotHello(host))
  {
    hide OraclePeer, ReadFlight, OneRecord, WholeFlight, RobotHello, Written, Opened;
    OracleTakes(pub, d, Link([], []), RobotHello(host));
    assert [] + [RobotHello(host)] == [RobotHello(host)];
    assert [] + OneRecord(WholeFlight(0x002f)) == OneRecord(WholeFlight(0x002f));
    WholeFlightRead(pub, 0x002f);
    WholeFlightDrained(pub, 0x002f);
  }

  lemma WholeFlightDrained(pub: RsaKey, suite: uint16)
    ensures ReadFlight(WithKey(pub), [], OneRecord(WholeFlight(suite)), NOTHING, 16).stream == []
  {
    hide ReadFlight, Messages, BeforeDone, HasDone, Leftover, NoteAll, Flatten, WrapRecord, StartsWithHandshake, AfterFirst,
         FirstRecord, Reassembly.Framed, Beginning, Instances.EmptyMessage, MessageLength, Fragments;
    var ms, s := WholeFlight(suite), OneRecord(WholeFlight(suite));
    WholeFlightFramed(suite);
    RecordMessages(ms);
    assert [] + Upto(s, 1) == Upto(s, 1);
    FirstIsAll(s, Flatten(ms));
    ReadFlightUnfolds(WithKey(pub), [], s, NOTHING, 16);
  }

  lemma FirstIsAll(s: seq<byte>, p: seq<byte>)
    requires StartsWithHandshake(s) && |Fragments(s)| == 1 && Upto(s, 1) == p
    ensures FirstRecord(s) == Body(p) && [] + p == p
  {
    Instances.SingleChunk(FirstBody(s));
    assert Fragments(s)[..1] == [FirstBody(s)];
  }

  lemma WholeFlightFramed(suite: uint16)
    ensures Reassembly.Framed(WholeFlight(suite)) && HasDone(WholeFlight(suite)) && 1 <= |Flatten(WholeFlight(suite))| < 0x1_0000
  {
    hide Flatten, Beginning, Instances.CertificateMessage, Instances.EmptyMessage, MessageLength, ParseServerHelloSuite, LeafKey;
    var last := Instances.EmptyMessage(SERVER_HELLO_DONE);
    Instances.ToyMessages();
    BeginningShape(suite);
    BeginningLength(suite);
    FlattenConcat(Beginning(suite), [last]);
    Instances.SingleChunk(last);
    assert last in WholeFlight(suite);
  }

  lemma ShownAlert(pub: RsaKey, d: nat, link: Link, m: Premaster)
    requires link.stream == AlertBytes(React(ORACLE, m))
    ensures RobotResponseAt(OraclePeer(pub, d), link) == React(ORACLE, m)
  {
    hide OraclePeer;
    assert GetU16(link.stream, 3) == 2;
  }

  lemma OracleAnswers(pub: RsaKey, d: nat, hello: seq<byte>, cipher: seq<byte>)
    ensures var l := SendBurst(OraclePeer(pub, d), Link([hello], []), cipher);
            l.Some? && RobotResponseAt(OraclePeer(pub, d), l.value)
                       == React(ORACLE, ServerReads(pub, d, RobotClientKeyExchange(cipher)))
  {
    hide OraclePeer, Written, ServerReads, RobotClientKeyExchange, AlertBytes, RobotResponseAt, React, OneRecord, WholeFlight,
         WrapRecord;
    var cke := RobotClientKeyExchange(cipher);
    var shown := React(ORACLE, ServerReads(pub, d, cke));
    ShownAlert(pub, d, Link([hello, cke, ROBOT_CHANGE_CIPHER_SPEC, BOGUS_FINISHED], AlertBytes(shown)), ServerReads(pub, d, cke));
    OracleTakes(pub, d, Link([hello], []), cke);
    OracleTakes(pub, d, Link([hello, cke], []), ROBOT_CHANGE_CIPHER_SPEC);
    OracleTakes(pub, d, Link([hello, cke, ROBOT_CHANGE_CIPHER_SPEC], []), BOGUS_FINISHED);
    assert [hello] + [cke] == [hello, cke] && [hello, cke] + [ROBOT_CHANGE_CIPHER_SPEC] == [hello, cke, ROBOT_CHANGE_CIPHER_SPEC];
    assert [hello, cke, ROBOT_CHANGE_CIPHER_SPEC] + [BOGUS_FINISHED] == [hello, cke, ROBOT_CHANGE_CIPHER_SPEC, BOGUS_FINISHED];
    assert [] + AlertBytes(shown) == AlertBytes(shown);
  }

  lemma OracleExchange(pub: RsaKey, d: nat, tails: nat -> Random46, host: seq<byte>, kind: VectorKind, i: nat)
    requires ModulusBytes(pub.n) >= 59
    ensures RobotExchange(OracleFlights(pub, d, tails, host), tails, pub, kind, i) ==
            Some(React(ORACLE, ServerReads(pub, d, RobotClientKeyExchange(CipherFor(pub, kind, NewPms(tails(i)))))))
  {
    hide OracleFlights, OraclePeer, SendBurst, ServerReads, RobotClientKeyExchange, CipherFor, NewPms, ModulusBytes,
         RobotResponseAt, React, RobotHello;
    OracleFlight(pub, d, tails, host, i);
    OracleAnswers(pub, d, RobotHello(host), CipherFor(pub, kind, NewPms(tails(i))));
  }

  lemma OracleDecrypts(pub: RsaKey, d: nat, tails: nat -> Random46, host: seq<byte>)
    requires ModulusBytes(pub.n) >= 59
    ensures DecryptingServer(OracleFlights(pub, d, tails, host), tails, pub, d, ORACLE)
    ensures Completes(Signatures(OracleFlights(pub, d, tails, host), tails, pub))
  {
    hide OracleFlights, RobotExchange, ServerReads, CipherFor, NewPms, React, ModulusBytes;
    forall kind: VectorKind, i: nat
      ensures RobotExchange(OracleFlights(pub, d, tails, host), tails, pub, kind, i) ==
              Some(React(ORACLE, ServerReads(pub, d, RobotClientKeyExchange(CipherFor(pub, kind, NewPms(tails(i)))))))
    {
      OracleExchange(pub, d, tails, host, kind, i);
    }
  }

  /**
   From the dial to the verdict, for every key of whole bytes that fits: a server that tells framing,
   version and success apart is flagged.
   */
  lemma OracleFlagged(pub: RsaKey, d: nat, tails: nat -> Random46, host: seq<byte>)
    requires RsaInverse(pub, d) && BitLen(pub.n) % 8 == 0 && 59 <= ModulusBytes(pub.n) < 0xfffa
    ensures Probe(OracleFlights(pub, d, tails, host), tails) == Verdict(true)
  {
    hide Probe, RsaInverse, BitLen, ModulusBytes, DecryptingServer, Completes, OracleFlights;
    OracleFlight(pub, d, tails, host, 0);
    OracleDecrypts(pub, d, tails, host);
    WholeBytesVerdict(OracleFlights(pub, d, tails, host), tails, pub, d, ORACLE);
  }

  /** With a shown key of 480 bits and public exponent 65537. */
  lemma DemoKeyFlagged(tails: nat -> Random46, host: seq<byte>)
    ensures Probe(OracleFlights(DemoKey(), KEY_D, tails, host), tails) == Verdict(true)
  {
    hide Probe, RsaInverse, BitLen, OracleFlights;
    DemoKeyInverse();
    DemoKeyLength();
    OracleFlagged(DemoKey(), KEY_D, tails, host);
  }

  // ----- a crash -----

  const TINY: RsaKey := RsaPublicKey(1, 1)

  /** The fail-safe promise at its smallest: a completed flight whose certificate carries the modulus 1. */
  lemma TinyKeyCrashes(d: nat, tails: nat -> Random46, host: seq<byte>)
    ensures Probe(OracleFlights(TINY, d, tails, host), tails) == Crashed
  {
    hide OracleFlights, Probe, OraclePeer;
    OracleFlight(TINY, d, tails, host, 0);
    OracleFlight(TINY, d, tails, host, 1);
    CrashExact(OracleFlights(TINY, d, tails, host), tails);
  }
}
