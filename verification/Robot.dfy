/** The ROBOT probe: its decision over every server, and its exact verdict on one that decrypts. */
module Robot {
  import opened Bytes
  import opened Wrappers
  import opened Network
  import opened Primitives
  import opened Hello
  import opened Reassembly
  import opened Flights
  import opened Rsa
  import opened Reactions
  import NumberTheory

  /** Every connection the probe may open, and the random part of each premaster secret. */
  datatype World = World(dial: nat -> Option<Peer>, premasterTail: nat -> Random46)

  const RSA_KEX_SUITES: seq<uint16> := [0x009d, 0x009c, 0x003d, 0x003c, 0x0035, 0x002f, 0x000a]

  function RobotHello(host: seq<byte>): seq<byte> {
    ClientHelloRecord(TLS12, TLS12, Fill(0, 32), RSA_KEX_SUITES, EncodeExtensions(ServerNameExtensions(host)))
  }

  /** The longest host name whose RSA-only hello fits the 16-bit length of a record, as for MAX_HOST. */
  const MAX_ROBOT_HOST: nat := 65467

  lemma ServerNameLength(host: seq<byte>)
    ensures |EncodeExtensions(ServerNameExtensions(host))| == if host == [] then 0 else 9 + |host|
    ensures host != [] ==> |ServerNameData(host)| == 5 + |host|
  {
    var es := ServerNameExtensions(host);
    if host != [] {
      assert EncodeExtensions(es[1..]) == [];
    }
  }

  /** What the RSA-only hello offers, as a server parses it. */
  lemma RobotHelloOffersRsaOnly(host: seq<byte>)
    requires |host| <= MAX_ROBOT_HOST
    ensures var hello := ParseClientHello(RobotHello(host));
            && hello.Some? && hello.value.version == TLS12 && hello.value.suites == RSA_KEX_SUITES
            && hello.value.random == Fill(0, 32) && hello.value.sessionId == [] && hello.value.compression == [0]
            && (if host == [] then hello.value.extensions == None
                else hello.value.extensions.Some? &&
                     ParseExtensions(hello.value.extensions.value) == Some([Extension(SERVER_NAME, ServerNameData(host))]) &&
                     ParseServerName(ServerNameData(host)) == Some(host))
  {
    hide ParseClientHello, ClientHelloRecord, ParseExtensions, EncodeExtensions, EncodeExtension, ParseServerName, ServerNameData;
    var es := ServerNameExtensions(host);
    ServerNameLength(host);
    ClientHelloRoundTrip(TLS12, TLS12, Fill(0, 32), RSA_KEX_SUITES, EncodeExtensions(es));
    ExtensionsRoundTrip(es);
    ServerNameRoundTrip(host);
  }

  /** Everything the RSA-only hello offers, and nothing readable beyond the bound. */
  lemma RobotOffer(host: seq<byte>)
    ensures ReadOffer(RobotHello(host)) ==
            if |host| <= MAX_ROBOT_HOST then
              Some(Offer(0x0303, Fill(0, 32), [], [0x009d, 0x009c, 0x003d, 0x003c, 0x0035, 0x002f, 0x000a], [0],
                         if host == [] then None else Some(host), None, None, None, None))
            else None
  {
    hide ParseClientHello, ClientHelloRecord, ParseExtensions, EncodeExtensions, ParseServerName, ParseGroups,
         ParseSignatureAlgorithms, FindExtension, ServerNameData, Vec8, Whole;
    NoExtensions();
    if |host| <= MAX_ROBOT_HOST {
      RobotHelloOffersRsaOnly(host);
      FindSteps(ServerNameExtensions(host));
    } else {
      ServerNameLength(host);
      ClientHelloRoundTrip(TLS12, TLS12, Fill(0, 32), RSA_KEX_SUITES, EncodeExtensions(ServerNameExtensions(host)));
    }
  }

  lemma NoExtensions()
    ensures forall kind: uint16 :: FindExtension([], kind) == None
  {
  }

  /** The 2-byte length of the encrypted premaster and the ciphertext, in a handshake record. */
  function RobotClientKeyExchange(cipher: seq<byte>): seq<byte> {
    ClientKeyExchange(U16(|cipher|) + cipher)
  }

  const ROBOT_CHANGE_CIPHER_SPEC: seq<byte> := WrapRecord(CHANGE_CIPHER_SPEC_RECORD, [0x01])
  const BOGUS_FINISHED: seq<byte> := WrapRecord(HANDSHAKE_RECORD, Fill(0x0c, 40))

  /** The record carries the ciphertext exactly when its 16-bit length can hold it. */
  lemma KeyExchangeCarriesCipher(cipher: seq<byte>)
    ensures ExchangedSecret(RobotClientKeyExchange(cipher)) == if 6 + |cipher| < 0x1_0000 then Some(cipher) else None
  {
    SecretReadBack(cipher);
  }

  /** The two records after the key exchange: ChangeCipherSpec, and 40 bytes 0x0c of handshake type. */
  lemma BurstParses()
    ensures Unwrap(ROBOT_CHANGE_CIPHER_SPEC) == Some((0x14, [1])) && Unwrap(BOGUS_FINISHED) == Some((0x16, Fill(0x0c, 40)))
    ensures ROBOT_CHANGE_CIPHER_SPEC[1..3] == BOGUS_FINISHED[1..3] == [3, 3]
  {
    UnwrapOfWrap(CHANGE_CIPHER_SPEC_RECORD, [0x01]);
    UnwrapOfWrap(HANDSHAKE_RECORD, Fill(0x0c, 40));
  }

  // ----- one exchange -----

  /** A connection after the server's flight. */
  datatype FlightLink = FlightLink(peer: Peer, done: bool, pub: Option<RsaKey>, link: Link)

  /** Dial, send the hello, read up to ServerHelloDone. */
  function OpenFlight(c: Crypto, w: World, host: seq<byte>, i: nat): (f: Option<FlightLink>)
    ensures f.Some? ==> w.dial(i) == Some(f.value.peer)
  {
    match w.dial(i)
    case None => None
    case Some(peer) =>
      match Written(peer, Opened(peer), RobotHello(host))
      case None => None
      case Some(l) =>
        var r := ReadFlight(c, [], l.stream, NOTHING, 16);
        Some(FlightLink(peer, r.done, r.pub, Link(l.sent, r.stream)))
  }

  /** The flights of all connections; the verdict theorems take any such table. */
  function OpenFlights(c: Crypto, w: World, host: seq<byte>): nat -> Option<FlightLink> {
    (i: nat) => OpenFlight(c, w, host, i)
  }

  /** The key exchange, ChangeCipherSpec and a dummy Finished. */
  function SendBurst(peer: Peer, link: Link, cipher: seq<byte>): Option<Link> {
    match Written(peer, link, RobotClientKeyExchange(cipher))
    case None => None
    case Some(l1) =>
      match Written(peer, l1, ROBOT_CHANGE_CIPHER_SPEC)
      case None => None
      case Some(l2) => Written(peer, l2, BOGUS_FINISHED)
  }

  /** One record header and, for an alert, its first two bytes. */
  function RobotResponseAt(peer: Peer, link: Link): Reaction {
    var s := link.stream;
    if |s| < 5 then OfEnding(peer.ending(link.sent))
    else if s[0] == ALERT_RECORD then
      if GetU16(s, 3) >= 2 && |s| >= 7 then Reaction(Alert, s[5], s[6]) else Reaction(Alert, 0, 0)
    else Reaction(HandshakeContinued, 0, 0)
  }

  function NewPms(tail: Random46): (pms: seq<byte>)
    ensures |pms| == 48 && pms[..2] == [0x03, 0x03]
  {
    [0x03, 0x03] + tail
  }

  function CipherFor(pub: RsaKey, kind: VectorKind, pms: seq<byte>): seq<byte>
    requires ModulusBytes(pub.n) >= MinBlock(kind)
  {
    Ciphertext(pub, VectorBlock(kind, ModulusBytes(pub.n), pms))
  }

  lemma CiphertextLength(pub: RsaKey, block: seq<byte>)
    ensures |Ciphertext(pub, block)| == ModulusBytes(pub.n) && Value(Ciphertext(pub, block)) < pub.n
  {
    ModulusFits(pub.n);
    hide PowMod, Value;
    ValueOfBigEndian(PowMod(Value(block), pub.e, pub.n), ModulusBytes(pub.n));
  }

  /** Connection i gets as far as building its PKCS#1 block. */
  predicate ReachesBuilder(flights: nat -> Option<FlightLink>, i: nat) {
    flights(i).Some? && flights(i).value.done && flights(i).value.pub.Some?
  }

  /** Connection i with one vector; tails are the random parts of the premaster secrets. */
  function RobotExchange(flights: nat -> Option<FlightLink>, tails: nat -> Random46, pub: RsaKey,
                         kind: VectorKind, i: nat): Option<Reaction> {
    if !ReachesBuilder(flights, i) || ModulusBytes(pub.n) < MinBlock(kind) then None
    else
      var f := flights(i).value;
      match SendBurst(f.peer, f.link, CipherFor(pub, kind, NewPms(tails(i))))
      case None => None
      case Some(l) => Some(RobotResponseAt(f.peer, l))
  }

  function Signatures(flights: nat -> Option<FlightLink>, tails: nat -> Random46, pub: RsaKey): Table<VectorKind> {
    (kind: VectorKind, i: nat) => RobotExchange(flights, tails, pub, kind, i)
  }

  // ----- the decision -----

  const REPETITIONS: nat := 2

  /** Vector j takes connections 1 + 2j and 2 + 2j. */
  function SignatureOf(x: Table<VectorKind>, j: nat): Option<Reaction>
    requires j < |ALL_VECTORS|
  {
    Stable(x, ALL_VECTORS[j], 1 + 2 * j, REPETITIONS)
  }

  /** Reproducible, and for a malformed vector different from the well-formed one. */
  predicate Distinguished(x: Table<VectorKind>, j: nat)
    requires j < |ALL_VECTORS|
  {
    && SignatureOf(x, 0).Some? && SignatureOf(x, j).Some?
    && (j > 0 ==> !Same(SignatureOf(x, j).value, SignatureOf(x, 0).value))
  }

  predicate Vulnerable(x: Table<VectorKind>) {
    forall j :: 0 <= j < |ALL_VECTORS| ==> Distinguished(x, j)
  }

  /** The three writes, abandoned at the first that fails. */
  method WriteBurst(conn: Conn, cipher: seq<byte>) returns (ok: bool)
    modifies conn
    ensures ok == SendBurst(conn.peer, old(conn.State()), cipher).Some?
    ensures ok ==> conn.State() == SendBurst(conn.peer, old(conn.State()), cipher).value
  {
    hide RobotClientKeyExchange, Written;
    ok := conn.Write(RobotClientKeyExchange(cipher));
    if !ok {
      return false;
    }
    ok := conn.Write(ROBOT_CHANGE_CIPHER_SPEC);
    if !ok {
      return false;
    }
    ok := conn.Write(BOGUS_FINISHED);
  }

  /** The key comes from connection 0, whether or not that flight reached ServerHelloDone. */
  function DiscoverKey(flights: nat -> Option<FlightLink>): Option<RsaKey> {
    match flights(0)
    case None => None
    case Some(f) => f.pub
  }

  /**
   The key taken from connection 0: the last RSA key among the messages its flight completed, even
   when the flight never reached ServerHelloDone, and none when a wrong record or the guard ended it.
   */
  lemma DiscoverKeyExact(c: Crypto, w: World, host: seq<byte>, peer: Peer, l: Link, j: nat)
    requires w.dial(0) == Some(peer) && Written(peer, Opened(peer), RobotHello(host)) == Some(l)
    requires j <= |Fragments(l.stream)| && Stops(l.stream, j)
    ensures DiscoverKey(OpenFlights(c, w, host)) == KeyAt(c, l.stream, j)
  {
    hide RobotHello, ReadFlight, Stops, KeyAt;
    ReadFlightKey(c, l.stream, j);
  }

  // ----- two promises about the key -----

  /** The messages the reader has noted when its loop stops after j records: those before any ServerHelloDone. */
  function NotedBy(s: seq<byte>, j: nat): seq<seq<byte>>
    requires j <= |Fragments(s)|
  {
    if j < 16 && j < |Fragments(s)| then BeforeDone(Messages(Upto(s, j + 1))) else Messages(Upto(s, j))
  }

  /** Neither a wrong record nor the 2^17 guard ended the loop. */
  predicate EndsCleanly(s: seq<byte>, j: nat)
    requires j <= |Fragments(s)|
  {
    if j < 16 && j < |Fragments(s)| then HasDone(Messages(Upto(s, j + 1)))
    else j == 16 || FirstRecord(AfterRecords(s, j)) != WrongRecord
  }

  predicate CarriesKey(c: Crypto, m: seq<byte>) {
    |m| >= 4 && m[0] == 0x0b && LeafKey(c, m).Some?
  }

  lemma {:induction false} LastKeySome(c: Crypto, ms: seq<seq<byte>>)
    ensures LastKey(c, ms).Some? <==> exists m :: m in ms && CarriesKey(c, m)
    decreases |ms|
  {
    if ms != [] {
      var init, last := ms[..|ms| - 1], ms[|ms| - 1];
      assert ms == init + [last];
      LastKeySome(c, init);
      assert last in ms;
      if m :| m in init && CarriesKey(c, m) {
        assert m in ms;
      }
      if m :| m in ms && CarriesKey(c, m) && !CarriesKey(c, last) {
        assert m in init;
      }
    }
  }

  /** A key is returned exactly when the loop ends cleanly and some noted Certificate carries one. */
  lemma KeyReturned(c: Crypto, s: seq<byte>, j: nat)
    requires j <= |Fragments(s)| && Stops(s, j)
    ensures ReadFlight(c, [], s, NOTHING, 16).pub.Some? <==>
            EndsCleanly(s, j) && exists m :: m in NotedBy(s, j) && CarriesKey(c, m)
  {
    hide ReadFlight, Messages, BeforeDone, HasDone, LastKey, CarriesKey, Upto, AfterRecords, Fragments, FirstRecord;
    forall k | 0 <= k <= |Fragments(s)| ensures [] + Upto(s, k) == Upto(s, k) {
    }
    assert j <= 16;
    ReadFlightKey(c, s, j);
    LastKeySome(c, NotedBy(s, j));
  }

  /** A ServerHello that selects a suite outside the RSA key exchange. */
  predicate SelectsOther(m: seq<byte>) {
    && |m| >= 4 && m[0] == 0x02 && ParseServerHelloSuite(m).Some?
    && ParseServerHelloSuite(m).value.0 !in RSA_KEX_SUITES
  }

  /**
   The promise of no key under another suite fails exactly when such a ServerHello and a Certificate
   with an RSA key are noted and the loop ends cleanly: the reader never looks at the suite.
   */
  lemma OtherSuiteExact(c: Crypto, s: seq<byte>, j: nat)
    requires j <= |Fragments(s)| && Stops(s, j)
    ensures ReadFlight(c, [], s, NOTHING, 16).pub.Some? && (exists m :: m in NotedBy(s, j) && SelectsOther(m)) <==>
            && EndsCleanly(s, j) && (exists m :: m in NotedBy(s, j) && CarriesKey(c, m))
            && exists m :: m in NotedBy(s, j) && SelectsOther(m)
  {
    hide ReadFlight, NotedBy, EndsCleanly, CarriesKey, SelectsOther, Stops;
    KeyReturned(c, s, j);
  }

  /** What an encoded ServerHello selects. */
  lemma SelectsEncoded(hello: ServerHello)
    requires WellFormed(hello)
    ensures SelectsOther(EncodeServerHello(hello)) <==> hello.suite !in RSA_KEX_SUITES
  {
    ServerHelloParsers(hello, 0);
    hide ParseServerHelloSuite, ServerHelloPrefix, EncodeExtensions;
  }

  /**
   The promise of no key from an ambiguous flight fails exactly when the flight is not done within
   the bounds, the loop ends cleanly all the same, and some noted Certificate carries a key.
   */
  lemma UnfinishedKeyExact(c: Crypto, s: seq<byte>, j: nat)
    requires j <= |Fragments(s)| && Stops(s, j)
    ensures var r := ReadFlight(c, [], s, NOTHING, 16);
            !r.done && r.pub.Some? <==>
            && (forall k :: 0 <= k <= |Fragments(s)| ==> !FlightDone(c, s, k))
            && EndsCleanly(s, j) && exists m :: m in NotedBy(s, j) && CarriesKey(c, m)
  {
    hide ReadFlight, NotedBy, EndsCleanly, CarriesKey, Stops, FlightDone, HasDone, LastKey, BeforeDone, Messages, Payload;
    KeyReturned(c, s, j);
    ReadFlightExact(c, s);
  }

  // ----- the probe's outcome -----

  /** How the probe ends; nothing recovers from a panic of the builder. */
  datatype ProbeOutcome = Crashed | Verdict(vulnerable: bool)

  function Probe(flights: nat -> Option<FlightLink>, tails: nat -> Random46): ProbeOutcome {
    match DiscoverKey(flights)
    case None => Verdict(false)
    case Some(pub) =>
      if ReachesBuilder(flights, 1) && ModulusBytes(pub.n) < MinBlock(Correct) then Crashed
      else Verdict(Vulnerable(Signatures(flights, tails, pub)))
  }

  class RobotProber {
    const crypto: Crypto
    const world: World
    var connections: nat

    constructor (crypto: Crypto, world: World)
      ensures this.crypto == crypto && this.world == world && connections == 0
    {
      this.crypto, this.world, connections := crypto, world, 0;
    }

    method ClientHello(host: seq<byte>) returns (record: seq<byte>)
      ensures record == RobotHello(host)
    {
      var ext := SniExtension(host);
      record := ClientHelloTls(TLS12, TLS12, RSA_KEX_SUITES, ext);
    }

    /** A fresh connection up to ServerHelloDone; None when dialling or writing failed. */
    method OpenConnection(host: seq<byte>) returns (conn: Conn?, done: bool, pub: Option<RsaKey>)
      modifies this
      ensures connections == old(connections) + 1
      ensures conn == null <==> OpenFlight(crypto, world, host, old(connections)).None?
      ensures conn != null ==> fresh(conn) && world.dial(old(connections)) == Some(conn.peer)
      ensures conn != null ==> (var f := OpenFlight(crypto, world, host, old(connections)).value;
                                done == f.done && pub == f.pub && (done ==> conn.State() == f.link))
    {
      hide RobotHello, ReadFlight;
      var dialled := world.dial(connections);
      connections := connections + 1;
      if dialled.None? {
        return null, false, None;
      }
      var c := new Conn(dialled.value);
      var hello := ClientHello(host);
      var ok := c.Write(hello);
      if !ok {
        return null, false, None;
      }
      done, pub := ReadServerHelloAndCert(crypto, c);
      conn := c;
    }

    method RobotServerRsaKey(host: seq<byte>) returns (pub: Option<RsaKey>)
      requires connections == 0
      modifies this
      ensures connections == 1 && pub == DiscoverKey(OpenFlights(crypto, world, host))
    {
      var conn, done, key := OpenConnection(host);
      if conn == null {
        return None;
      }
      return key;
    }

    /** crashed is the builder's panic, which ends the probe. */
    method Exchange(host: seq<byte>, pub: RsaKey, kind: VectorKind) returns (r: Option<Reaction>, crashed: bool)
      modifies this
      ensures connections == old(connections) + 1
      ensures crashed <==> ReachesBuilder(OpenFlights(crypto, world, host), old(connections)) &&
                           ModulusBytes(pub.n) < MinBlock(kind)
      ensures r == Signatures(OpenFlights(crypto, world, host), world.premasterTail, pub)(kind, old(connections))
      ensures r.Some? ==> ModulusBytes(pub.n) >= MinBlock(kind)
    {
      hide OpenFlight, Ciphertext, VectorBlock, RobotResponseAt, MinBlock, SendBurst, NewPms, BitLen;
      ghost var i := connections;
      var pms := NewPms(world.premasterTail(connections));
      var conn, done, pub2 := OpenConnection(host);
      if conn == null {
        return None, false;
      }
      if pub2.None? || !done {
        return None, false;
      }
      var block := BuildPkcs1Vector(kind, (BitLen(pub.n) + 7) / 8, pms);
      if block.None? {
        return None, true;
      }
      var cipher := RsaEncrypt(pub, block.value[..]);
      assert cipher == CipherFor(pub, kind, NewPms(world.premasterTail(i)));
      var ok := WriteBurst(conn, cipher);
      if !ok {
        return None, false;
      }
      var reaction := ReadRobotResponse(conn);
      return Some(reaction), false;
    }

    method StableSignature(host: seq<byte>, pub: RsaKey, kind: VectorKind, reps: nat)
      returns (r: Option<Reaction>, crashed: bool)
      requires reps >= 1
      modifies this
      ensures connections <= old(connections) + reps
      ensures r.Some? ==> connections == old(connections) + reps
      ensures crashed <==> ReachesBuilder(OpenFlights(crypto, world, host), old(connections)) &&
                           ModulusBytes(pub.n) < MinBlock(kind)
      ensures r == Stable(Signatures(OpenFlights(crypto, world, host), world.premasterTail, pub), kind,
                          old(connections), reps)
      ensures r.Some? ==> ModulusBytes(pub.n) >= MinBlock(kind)
    {
      hide RobotExchange, MinBlock, ModulusBytes, ReachesBuilder;
      var first := Reaction(Error, 0, 0);
      ghost var x, start := Signatures(OpenFlights(crypto, world, host), world.premasterTail, pub), connections;
      for i := 0 to reps
        invariant connections == start + i
        invariant i > 0 ==> x(kind, start) == Some(first) && ModulusBytes(pub.n) >= MinBlock(kind)
        invariant Agree(x, kind, start, i, first)
      {
        var sig;
        sig, crashed := Exchange(host, pub, kind);
        assert sig == x(kind, start + i);
        if sig.None? {
          assert !Agree(x, kind, start, reps, first);
          return None, crashed;
        }
        if i == 0 {
          first := sig.value;
        }
        AgreeStep(x, kind, start, i, reps, first);
        if i > 0 && !Same(sig.value, first) {
          return None, false;
        }
      }
      return Some(first), false;
    }

    method ProbeRobot(host: seq<byte>) returns (outcome: ProbeOutcome)
      requires connections == 0
      modifies this
      ensures outcome == Probe(OpenFlights(crypto, world, host), world.premasterTail)
      ensures connections <= 11
    {
      hide RobotExchange, OpenFlight, Stable, ModulusBytes, ReachesBuilder;
      var pub := RobotServerRsaKey(host);
      if pub.None? {
        return Verdict(false);
      }
      ghost var x := Signatures(OpenFlights(crypto, world, host), world.premasterTail, pub.value);
      var correct, crashed := StableSignature(host, pub.value, Correct, REPETITIONS);
      assert correct == SignatureOf(x, 0);
      if crashed {
        return Crashed;
      }
      if correct.None? {
        assert !Distinguished(x, 0);
        return Verdict(false);
      }
      for j := 0 to |ALL_VECTORS|
        invariant connections == if j == 0 then 3 else 1 + 2 * j
        invariant forall i :: 0 <= i < j ==> Distinguished(x, i)
      {
        var kind := ALL_VECTORS[j];
        if kind == Correct {
          assert j == 0;
          continue;
        }
        assert j > 0;
        var sig;
        sig, crashed := StableSignature(host, pub.value, kind, REPETITIONS);
        assert sig == SignatureOf(x, j);
        assert !crashed;
        if sig.None? {
          assert !Distinguished(x, j);
          return Verdict(false);
        }
        if Same(sig.value, correct.value) {
          assert !Distinguished(x, j);
          return Verdict(false);
        }
      }
      return Verdict(true);
    }
  }

  method ReadRobotResponse(conn: Conn) returns (r: Reaction)
    modifies conn`pending
    ensures r == RobotResponseAt(conn.peer, old(conn.State()))
    ensures var s := old(conn.State().stream);
            && (|s| < 5 ==> r == OfEnding(conn.peer.ending(conn.sent)))
            && (|s| >= 5 && s[0] != 0x15 ==> r.kind == HandshakeContinued)
            && (|s| >= 5 && s[0] == 0x15 ==> r.kind == Alert)
            && (|s| >= 7 && s[0] == 0x15 && s[3] as int * 0x100 + s[4] as int >= 2 ==> r == Reaction(Alert, s[5], s[6]))
            && (|s| >= 5 && s[0] == 0x15 && (|s| < 7 || s[3] as int * 0x100 + s[4] as int < 2) ==> r == Reaction(Alert, 0, 0))
  {
    var header := ReadRecordHeader(conn);
    if header.None? {
      return OfEnding(conn.peer.ending(conn.sent));
    }
    if header.value.contentType == ALERT_RECORD {
      r := Reaction(Alert, 0, 0);
      if header.value.length >= 2 {
        var alert := ReadPayload(conn, 2);
        if alert.Some? {
          r := Reaction(Alert, alert.value[0], alert.value[1]);
        }
      }
      return r;
    } else {
      return Reaction(HandshakeContinued, 0, 0);
    }
  }

  // ----- verdicts over every server -----

  /** Both exchanges of vector j give a reaction. */
  predicate Answered(x: Table<VectorKind>, j: nat)
    requires j < |ALL_VECTORS|
  {
    x(ALL_VECTORS[j], 1 + 2 * j).Some? && x(ALL_VECTORS[j], 2 + 2 * j).Some?
  }

  function First(x: Table<VectorKind>, j: nat): Reaction
    requires j < |ALL_VECTORS| && Answered(x, j)
  {
    x(ALL_VECTORS[j], 1 + 2 * j).value
  }

  function Second(x: Table<VectorKind>, j: nat): Reaction
    requires j < |ALL_VECTORS| && Answered(x, j)
  {
    x(ALL_VECTORS[j], 2 + 2 * j).value
  }

  /** All ten exchanges give a reaction. */
  predicate Completes(x: Table<VectorKind>) {
    forall j :: 0 <= j < |ALL_VECTORS| ==> Answered(x, j)
  }

  lemma SignatureExact(x: Table<VectorKind>, j: nat)
    requires j < |ALL_VECTORS|
    ensures SignatureOf(x, j).Some? <==> Answered(x, j) && Same(Second(x, j), First(x, j))
    ensures SignatureOf(x, j).Some? ==> SignatureOf(x, j).value == First(x, j)
  {
    StableTwice(x, ALL_VECTORS[j], 1 + 2 * j);
  }

  /**
   Over every server: vulnerable exactly when all ten exchanges succeed, each vector's repetitions
   agree, and every malformed vector's reaction differs from the well-formed one's.
   */
  lemma VulnerableExact(x: Table<VectorKind>)
    ensures Vulnerable(x) <==>
            && Completes(x)
            && (forall j :: 0 <= j < |ALL_VECTORS| ==> Same(Second(x, j), First(x, j)))
            && (forall j :: 1 <= j < |ALL_VECTORS| ==> !Same(First(x, j), First(x, 0)))
  {
    hide SignatureOf, Answered, First, Second, Same;
    forall j | 0 <= j < |ALL_VECTORS|
      ensures SignatureOf(x, j).Some? <==> Answered(x, j) && Same(Second(x, j), First(x, j))
      ensures SignatureOf(x, j).Some? ==> SignatureOf(x, j).value == First(x, j)
    {
      SignatureExact(x, j);
    }
    assert Vulnerable(x) ==> Distinguished(x, 0);
    if Vulnerable(x) {
      forall j | 0 <= j < |ALL_VECTORS|
        ensures Answered(x, j) && Same(Second(x, j), First(x, j)) && (j > 0 ==> !Same(First(x, j), First(x, 0)))
      {
        assert Distinguished(x, j);
      }
    }
  }

  /** A server whose reaction ignores the vector is never flagged, however it otherwise behaves. */
  lemma MitigatedNotFlagged(x: Table<VectorKind>, r: Reaction)
    requires forall j :: 0 <= j < |ALL_VECTORS| && Answered(x, j) ==> Same(First(x, j), r)
    ensures !Vulnerable(x)
  {
    VulnerableExact(x);
    if Completes(x) {
      assert Answered(x, 0) && Answered(x, 1);
      assert Same(First(x, 1), First(x, 0));
    }
  }

  /** The vector of connection i, from 1 to 10. */
  function Schedule(i: nat): VectorKind {
    if i <= 2 then Correct
    else if i <= 4 then WrongFirstBytes
    else if i <= 6 then NoZero
    else if i <= 8 then ZeroInPadding
    else WrongVersion
  }

  /** The key exchange, ChangeCipherSpec and the dummy Finished of connection i are written, in this order. */
  predicate TakesBurst(flights: nat -> Option<FlightLink>, tails: nat -> Random46, pub: RsaKey, i: nat)
    requires ModulusBytes(pub.n) >= 11
  {
    && flights(i).Some? && flights(i).value.done && flights(i).value.pub.Some?
    && var sent, key := flights(i).value.link.sent, RobotClientKeyExchange(CipherFor(pub, Schedule(i), NewPms(tails(i))));
       && flights(i).value.peer.accepts(sent + [key])
       && flights(i).value.peer.accepts(sent + [key, ROBOT_CHANGE_CIPHER_SPEC])
       && flights(i).value.peer.accepts(sent + [key, ROBOT_CHANGE_CIPHER_SPEC, BOGUS_FINISHED])
  }

  /** The response once all three are written. */
  function ResponseOn(flights: nat -> Option<FlightLink>, tails: nat -> Random46, pub: RsaKey, i: nat): Reaction
    requires ModulusBytes(pub.n) >= 11 && TakesBurst(flights, tails, pub, i)
  {
    var f := flights(i).value;
    BurstTaken(f.peer, f.link, CipherFor(pub, Schedule(i), NewPms(tails(i))));
    RobotResponseAt(f.peer, SendBurst(f.peer, f.link, CipherFor(pub, Schedule(i), NewPms(tails(i)))).value)
  }

  lemma BurstTaken(peer: Peer, link: Link, cipher: seq<byte>)
    ensures var key := RobotClientKeyExchange(cipher);
            SendBurst(peer, link, cipher).Some? <==>
            && peer.accepts(link.sent + [key]) && peer.accepts(link.sent + [key, ROBOT_CHANGE_CIPHER_SPEC])
            && peer.accepts(link.sent + [key, ROBOT_CHANGE_CIPHER_SPEC, BOGUS_FINISHED])
  {
    hide RobotClientKeyExchange, Flatten;
    var key := RobotClientKeyExchange(cipher);
    assert (link.sent + [key]) + [ROBOT_CHANGE_CIPHER_SPEC] == link.sent + [key, ROBOT_CHANGE_CIPHER_SPEC];
    assert (link.sent + [key, ROBOT_CHANGE_CIPHER_SPEC]) + [BOGUS_FINISHED]
        == link.sent + [key, ROBOT_CHANGE_CIPHER_SPEC, BOGUS_FINISHED];
  }

  lemma ExchangeTaken(flights: nat -> Option<FlightLink>, tails: nat -> Random46, pub: RsaKey, i: nat)
    requires ModulusBytes(pub.n) >= 11
    ensures RobotExchange(flights, tails, pub, Schedule(i), i) ==
            if TakesBurst(flights, tails, pub, i) then Some(ResponseOn(flights, tails, pub, i)) else None
  {
    hide SendBurst, CipherFor, NewPms, RobotResponseAt, RobotClientKeyExchange, ModulusBytes;
    if ReachesBuilder(flights, i) {
      BurstTaken(flights(i).value.peer, flights(i).value.link, CipherFor(pub, Schedule(i), NewPms(tails(i))));
    }
  }

  /** Of a modulus the builder serves: all bursts taken, repetitions agree, malformed vectors differ from the first. */
  predicate ShowsOracle(flights: nat -> Option<FlightLink>, tails: nat -> Random46, pub: RsaKey)
    requires ModulusBytes(pub.n) >= 11
  {
    && (forall i :: 1 <= i <= 10 ==> TakesBurst(flights, tails, pub, i))
    && Same(ResponseOn(flights, tails, pub, 2), ResponseOn(flights, tails, pub, 1))
    && Same(ResponseOn(flights, tails, pub, 4), ResponseOn(flights, tails, pub, 3))
    && Same(ResponseOn(flights, tails, pub, 6), ResponseOn(flights, tails, pub, 5))
    && Same(ResponseOn(flights, tails, pub, 8), ResponseOn(flights, tails, pub, 7))
    && Same(ResponseOn(flights, tails, pub, 10), ResponseOn(flights, tails, pub, 9))
    && !Same(ResponseOn(flights, tails, pub, 3), ResponseOn(flights, tails, pub, 1))
    && !Same(ResponseOn(flights, tails, pub, 5), ResponseOn(flights, tails, pub, 1))
    && !Same(ResponseOn(flights, tails, pub, 7), ResponseOn(flights, tails, pub, 1))
    && !Same(ResponseOn(flights, tails, pub, 9), ResponseOn(flights, tails, pub, 1))
  }

  /**
   The probe's answer over every server: vulnerable exactly when connection 0 yields a key of at
   least 81 bits and the ten bursts show an oracle.
   */
  lemma ProbeExact(flights: nat -> Option<FlightLink>, tails: nat -> Random46)
    ensures Probe(flights, tails) == Verdict(true) <==>
            && flights(0).Some? && flights(0).value.pub.Some?
            && flights(0).value.pub.value.n >= 0x1_0000_0000_0000_0000_0000
            && ModulusBytes(flights(0).value.pub.value.n) >= 11
            && ShowsOracle(flights, tails, flights(0).value.pub.value)
  {
    hide ModulusBytes, Vulnerable, ShowsOracle, RobotExchange;
    if flights(0).Some? && flights(0).value.pub.Some? {
      var pub := flights(0).value.pub.value;
      ElevenBytesIff(pub.n);
      if ModulusBytes(pub.n) >= 11 {
        OracleShown(flights, tails, pub);
      } else {
        TooShort(flights, tails, pub);
      }
    }
  }

  lemma TooShort(flights: nat -> Option<FlightLink>, tails: nat -> Random46, pub: RsaKey)
    requires ModulusBytes(pub.n) < 11
    ensures !Vulnerable(Signatures(flights, tails, pub))
  {
    hide ModulusBytes, SendBurst, Vulnerable;
    VulnerableExact(Signatures(flights, tails, pub));
    assert !Answered(Signatures(flights, tails, pub), 0);
  }

  lemma OracleShown(flights: nat -> Option<FlightLink>, tails: nat -> Random46, pub: RsaKey)
    requires ModulusBytes(pub.n) >= 11
    ensures Vulnerable(Signatures(flights, tails, pub)) <==> ShowsOracle(flights, tails, pub)
  {
    hide ModulusBytes, RobotExchange, Vulnerable, TakesBurst, ResponseOn, Same;
    var x := Signatures(flights, tails, pub);
    VulnerableExact(x);
    forall i | 1 <= i <= 10
      ensures x(Schedule(i), i) == if TakesBurst(flights, tails, pub, i) then Some(ResponseOn(flights, tails, pub, i)) else None
    {
      ExchangeTaken(flights, tails, pub, i);
    }
    ScheduledTable(x);
  }

  /** The table's conditions by connection instead of by vector. */
  lemma ScheduledTable(x: Table<VectorKind>)
    ensures Completes(x) <==> forall i :: 1 <= i <= 10 ==> x(Schedule(i), i).Some?
    ensures Completes(x) ==>
              && First(x, 0) == x(Correct, 1).value && Second(x, 0) == x(Correct, 2).value
              && First(x, 1) == x(WrongFirstBytes, 3).value && Second(x, 1) == x(WrongFirstBytes, 4).value
              && First(x, 2) == x(NoZero, 5).value && Second(x, 2) == x(NoZero, 6).value
              && First(x, 3) == x(ZeroInPadding, 7).value && Second(x, 3) == x(ZeroInPadding, 8).value
              && First(x, 4) == x(WrongVersion, 9).value && Second(x, 4) == x(WrongVersion, 10).value
  {
    if Completes(x) {
      assert Answered(x, 0) && Answered(x, 1) && Answered(x, 2) && Answered(x, 3) && Answered(x, 4);
    }
    if forall i :: 1 <= i <= 10 ==> x(Schedule(i), i).Some? {
      forall j | 0 <= j < |ALL_VECTORS| ensures Answered(x, j) {
        assert x(Schedule(1 + 2 * j), 1 + 2 * j).Some? && x(Schedule(2 + 2 * j), 2 + 2 * j).Some?;
      }
    }
  }

  /** Without a key from connection 0 the answer is not vulnerable. */
  lemma NoKeyNotVulnerable(flights: nat -> Option<FlightLink>, tails: nat -> Random46)
    requires flights(0).None? || flights(0).value.pub.None?
    ensures Probe(flights, tails) == Verdict(false)
  {
  }

  /** So it is after a failed dial, a refused hello, or a first record that is no handshake record, such as an alert. */
  lemma NothingToProbe(c: Crypto, w: World, host: seq<byte>, tails: nat -> Random46)
    requires match w.dial(0)
             case None => true
             case Some(peer) =>
               !peer.accepts([RobotHello(host)]) ||
               !StartsWithHandshake(Flatten(peer.reply([])) + Flatten(peer.reply([RobotHello(host)])))
    ensures Probe(OpenFlights(c, w, host), tails) == Verdict(false)
  {
    hide RobotHello, Flatten, ReadFlight;
    if w.dial(0).Some? {
      var peer := w.dial(0).value;
      assert [] + [RobotHello(host)] == [RobotHello(host)];
      NoFirstRecord(c, Flatten(peer.reply([])) + Flatten(peer.reply([RobotHello(host)])));
    }
    NoKeyNotVulnerable(OpenFlights(c, w, host), tails);
  }

  lemma NoFirstRecord(c: Crypto, s: seq<byte>)
    ensures !StartsWithHandshake(s) ==> ReadFlight(c, [], s, NOTHING, 16).pub == None
  {
    hide ReadFlight;
    ReadFlightUnfolds(c, [], s, NOTHING, 16);
  }

  // ----- servers that decrypt -----

  datatype Policy = Policy(badFraming: Reaction, badVersion: Reaction, good: Reaction)

  function React(p: Policy, m: Premaster): Reaction {
    match m
    case BadFraming => p.badFraming
    case BadVersion => p.badVersion
    case Good(_) => p.good
  }

  /**
   What a server with the inverse d makes of the key exchange record: section 7.2.2 of RFC 8017, a
   ciphertext of the wrong length or outside the modulus being badly framed as well.
   */
  function ServerReads(pub: RsaKey, d: nat, record: seq<byte>): Premaster {
    match ExchangedSecret(record)
    case None => BadFraming
    case Some(cipher) =>
      if |cipher| != ModulusBytes(pub.n) || Value(cipher) >= pub.n then BadFraming
      else ReadPremaster(ServerDecrypts(pub, d, cipher))
  }

  /** The reaction to each burst of the probe is what the decrypted premaster calls for. */
  ghost predicate DecryptingServer(flights: nat -> Option<FlightLink>, tails: nat -> Random46, pub: RsaKey, d: nat, p: Policy) {
    forall i: nat :: 1 <= i <= 10 && RobotExchange(flights, tails, pub, Schedule(i), i).Some? ==>
      RobotExchange(flights, tails, pub, Schedule(i), i).value ==
      React(p, ServerReads(pub, d, RobotClientKeyExchange(CipherFor(pub, Schedule(i), NewPms(tails(i))))))
  }

  /** The block of the 0x41 0x17 vector as it decrypts: reduced modulo N, and read like any other. */
  function ResidueRead(pub: RsaKey, pms: seq<byte>): Premaster
    requires ModulusBytes(pub.n) >= 11
  {
    var k := ModulusBytes(pub.n);
    ReadPremaster(BigEndian(Value(VectorBlock(WrongFirstBytes, k, pms)) % pub.n, k))
  }

  /** What the server reads out of each vector's record; an oversized record reads as badly framed. */
  function Seen(pub: RsaKey, kind: VectorKind, pms: seq<byte>): Premaster
    requires ModulusBytes(pub.n) >= 11
  {
    if ModulusBytes(pub.n) >= 0xfffa then BadFraming
    else if kind == WrongFirstBytes then ResidueRead(pub, pms)
    else ReadAs(kind, ModulusBytes(pub.n), pms)
  }

  lemma ServerReadsVector(pub: RsaKey, d: nat, kind: VectorKind, pms: seq<byte>)
    requires RsaInverse(pub, d) && ModulusBytes(pub.n) >= 11
    requires |pms| == 48 && pms[..2] == [0x03, 0x03]
    ensures ServerReads(pub, d, RobotClientKeyExchange(CipherFor(pub, kind, pms))) == Seen(pub, kind, pms)
  {
    hide ServerDecrypts, ReadPremaster, RobotClientKeyExchange, ExchangedSecret, Ciphertext, VectorBlock, ReadAs,
         RsaInverse, BigEndian, Value, BitLen;
    VectorReadBack(pub, d, kind, pms);
    CiphertextLength(pub, VectorBlock(kind, ModulusBytes(pub.n), pms));
    KeyExchangeCarriesCipher(CipherFor(pub, kind, pms));
  }

  /** For a modulus of whole bytes the 0x41 0x17 block stays what it is and reads as badly framed. */
  lemma WholeBytesResidue(pub: RsaKey, pms: seq<byte>)
    requires ModulusBytes(pub.n) >= 11 && BitLen(pub.n) % 8 == 0 && |pms| == 48 && pms[..2] == [0x03, 0x03]
    ensures ResidueRead(pub, pms) == BadFraming
  {
    var k := ModulusBytes(pub.n);
    var block := VectorBlock(WrongFirstBytes, k, pms);
    assert block[0] == 0x41;
    WrongStartVersusModulus(block, pub.n);
    hide BigEndian, Value, VectorBlock, BitLen, ReadPremaster;
    NumberTheory.ModUnique(Value(block), 0, Value(block), pub.n);
    BigEndianOfValue(block);
    BlockOutcome(WrongFirstBytes, k, pms);
  }

  /** A server that answers a good premaster unlike bad framing, a wrong version and the reduced block. */
  predicate TellsApart(p: Policy, pub: RsaKey, tails: nat -> Random46)
    requires ModulusBytes(pub.n) >= 11
  {
    var third, fourth := React(p, ResidueRead(pub, NewPms(tails(3)))), React(p, ResidueRead(pub, NewPms(tails(4))));
    !Same(p.badFraming, p.good) && !Same(p.badVersion, p.good) && Same(fourth, third) && !Same(third, p.good)
  }

  /**
   The exact verdict on a server that decrypts, for every modulus: flagged exactly when the probe
   completes, block and record hold the premaster, and a good premaster is told apart from bad
   framing, from a wrong version, and from the 0x41 0x17 block reduced modulo N.
   */
  lemma VerdictExact(flights: nat -> Option<FlightLink>, tails: nat -> Random46, pub: RsaKey, d: nat, p: Policy)
    requires RsaInverse(pub, d) && DiscoverKey(flights) == Some(pub) && DecryptingServer(flights, tails, pub, d, p)
    ensures Probe(flights, tails) == Verdict(true) <==>
            Completes(Signatures(flights, tails, pub)) && 59 <= ModulusBytes(pub.n) < 0xfffa && TellsApart(p, pub, tails)
  {
    hide DiscoverKey, RsaInverse, DecryptingServer, ModulusBytes, BitLen, Vulnerable, RobotExchange, ResidueRead, Same,
         ReachesBuilder;
    var x := Signatures(flights, tails, pub);
    VulnerableExact(x);
    if Completes(x) {
      assert Answered(x, 0);
      RespondsSeen(flights, tails, pub, d, p, 0);
      RespondsSeen(flights, tails, pub, d, p, 1);
      RespondsSeen(flights, tails, pub, d, p, 2);
      RespondsSeen(flights, tails, pub, d, p, 3);
      RespondsSeen(flights, tails, pub, d, p, 4);
      SameReflexive(p);
      assert |ALL_VECTORS| == 5;
    }
  }

  lemma RespondsSeen(flights: nat -> Option<FlightLink>, tails: nat -> Random46, pub: RsaKey, d: nat, p: Policy, j: nat)
    requires RsaInverse(pub, d) && DecryptingServer(flights, tails, pub, d, p) && j < |ALL_VECTORS|
    requires Completes(Signatures(flights, tails, pub))
    ensures var x, kind := Signatures(flights, tails, pub), ALL_VECTORS[j];
            && ModulusBytes(pub.n) >= 11 && Answered(x, j)
            && First(x, j) == React(p, Seen(pub, kind, NewPms(tails(1 + 2 * j))))
            && Second(x, j) == React(p, Seen(pub, kind, NewPms(tails(2 + 2 * j))))
  {
    hide RsaInverse, ModulusBytes, BitLen, RobotExchange, CipherFor, ServerReads, RobotClientKeyExchange, Seen, NewPms, React;
    var x := Signatures(flights, tails, pub);
    assert Answered(x, 0) && Answered(x, j);
    assert Schedule(1) == Correct && Schedule(1 + 2 * j) == Schedule(2 + 2 * j) == ALL_VECTORS[j];
    LongEnough(flights, tails, pub);
    ServerReadsVector(pub, d, ALL_VECTORS[j], NewPms(tails(1 + 2 * j)));
    ServerReadsVector(pub, d, ALL_VECTORS[j], NewPms(tails(2 + 2 * j)));
  }

  lemma LongEnough(flights: nat -> Option<FlightLink>, tails: nat -> Random46, pub: RsaKey)
    requires RobotExchange(flights, tails, pub, Correct, 1).Some?
    ensures ModulusBytes(pub.n) >= 11
  {
    hide ModulusBytes, SendBurst, CipherFor;
  }

  lemma SameReflexive(p: Policy)
    ensures Same(p.good, p.good) && Same(p.badFraming, p.badFraming) && Same(p.badVersion, p.badVersion)
  {
  }

  /** For moduli of whole bytes the third condition is the first. */
  lemma WholeBytesVerdict(flights: nat -> Option<FlightLink>, tails: nat -> Random46, pub: RsaKey, d: nat, p: Policy)
    requires RsaInverse(pub, d) && DiscoverKey(flights) == Some(pub) && DecryptingServer(flights, tails, pub, d, p)
    requires BitLen(pub.n) % 8 == 0
    ensures Probe(flights, tails) == Verdict(true) <==>
            Completes(Signatures(flights, tails, pub)) && 59 <= ModulusBytes(pub.n) < 0xfffa &&
            !Same(p.badFraming, p.good) && !Same(p.badVersion, p.good)
  {
    hide Probe, RsaInverse, DecryptingServer, DiscoverKey, Completes, ResidueRead;
    VerdictExact(flights, tails, pub, d, p);
    if ModulusBytes(pub.n) >= 11 {
      WholeBytesResidue(pub, NewPms(tails(3)));
      WholeBytesResidue(pub, NewPms(tails(4)));
    }
  }

  /**
   The fail-safe promise fails exactly here: a certificate with a modulus below 2^80, and a first
   crafted connection that reaches the builder.
   */
  lemma CrashExact(flights: nat -> Option<FlightLink>, tails: nat -> Random46)
    ensures Probe(flights, tails) == Crashed <==>
            DiscoverKey(flights).Some? && DiscoverKey(flights).value.n < 0x1_0000_0000_0000_0000_0000 &&
            ReachesBuilder(flights, 1)
  {
    hide DiscoverKey, ReachesBuilder, Vulnerable, ModulusBytes;
    if DiscoverKey(flights).Some? {
      ElevenBytesIff(DiscoverKey(flights).value.n);
    }
  }
}
