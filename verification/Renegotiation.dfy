/** The secure-renegotiation probe, from the bytes of a ServerHello to the verdict. */
module Renegotiation {
  import opened Bytes
  import opened Wrappers
  import opened Network
  import opened Hello
  import opened Reassembly
  import opened Flights

  const RENEGOTIATION_INFO: uint16 := 0xff01
  const OFFERED_SUITES: seq<uint16> :=
    [0xc02f, 0xc030, 0xc02b, 0xc02c, 0xc013, 0xc014, 0x009c, 0x009d, 0x002f, 0x0035]

  /** The hello offers an empty renegotiation_info extension of its own. */
  const RENEGOTIATION_HELLO: seq<byte> :=
    ClientHelloRecord(TLS12, TLS12, Fill(0, 32), OFFERED_SUITES, [0xff, 0x01, 0x00, 0x01, 0x00])

  /** Insecure only on a ServerHello that was read off the stream and lacks the extension. */
  predicate LacksRenegotiationInfo(s: seq<byte>) {
    var m := AssembleServerHello([], s);
    m.Some? && !HasExtension(m.value, RENEGOTIATION_INFO)
  }

  predicate InsecureRenegotiation(dial: Option<Peer>) {
    && dial.Some? && Written(dial.value, Opened(dial.value), RENEGOTIATION_HELLO).Some?
    && LacksRenegotiationInfo(Written(dial.value, Opened(dial.value), RENEGOTIATION_HELLO).value.stream)
  }

  method ProbeInsecureRenegotiation(dial: Option<Peer>) returns (insecure: bool)
    ensures insecure == InsecureRenegotiation(dial)
  {
    hide AssembleServerHello, HasExtension;
    if dial.None? {
      return false;
    }
    var conn := new Conn(dial.value);
    var hello := ClientHelloTls(TLS12, TLS12, OFFERED_SUITES, [0xff, 0x01, 0x00, 0x01, 0x00]);
    var ok := conn.Write(hello);
    if !ok {
      return false;
    }
    var serverHello := ReadServerHelloMessage(conn);
    if serverHello.None? {
      return false;
    }
    var found := ServerHelloHasExtension(serverHello.value, RENEGOTIATION_INFO);
    return !found;
  }

  /** What the hello offers: ten suites, and an empty renegotiation_info as its one extension. */
  lemma RenegotiationOffer()
    ensures ReadOffer(RENEGOTIATION_HELLO) ==
            Some(Offer(0x0303, Fill(0, 32), [],
                       [0xc02f, 0xc030, 0xc02b, 0xc02c, 0xc013, 0xc014, 0x009c, 0x009d, 0x002f, 0x0035], [0],
                       None, None, None, None, Some([])))
  {
    hide ParseClientHello, ClientHelloRecord, ParseExtensions, EncodeExtensions, ParseServerName, ParseGroups,
         ParseSignatureAlgorithms, FindExtension, Vec8;
    var es := [Extension(0xff01, [0x00])];
    ClientHelloRoundTrip(TLS12, TLS12, Fill(0, 32), OFFERED_SUITES, [0xff, 0x01, 0x00, 0x01, 0x00]);
    EncodedInfo();
    ExtensionsRoundTrip(es);
    FindSteps(es);
    var nothing: seq<byte> := [];
    Vec8RoundTrip(nothing, nothing);
    assert [|nothing|] + nothing + nothing == [0x00];
  }

  lemma EncodedInfo()
    ensures EncodeExtensions([Extension(0xff01, [0x00])]) == [0xff, 0x01, 0x00, 0x01, 0x00]
  {
    var es := [Extension(0xff01, [0x00])];
    assert es[1..] == [];
    assert EncodeExtensions(es) == EncodeExtension(es[0]) + [];
  }

  // ----- the answer over every peer -----

  /** What the peer sends once the hello is written. */
  function Answer(peer: Peer): seq<byte> {
    Flatten(peer.reply([])) + Flatten(peer.reply([RENEGOTIATION_HELLO]))
  }

  /** No extension header of type 0xff01 is reached in the message. */
  ghost predicate NoInfoReached(msg: seq<byte>) {
    |msg| < 39 || |msg| < 44 + msg[38] as int ||
    !Reaches(msg, 44 + msg[38] as int, BlockEnd(msg, 44 + msg[38] as int), 0xff01)
  }

  /** The handshake payload starts with a whole ServerHello that passes the 2^16 guard, and no such extension is in it. */
  ghost predicate ShowsNoInfo(s: seq<byte>) {
    var whole := Payload(s);
    && HasMessage(whole) && whole[0] == 2 && PassesGuard([], s, MessageLength(whole))
    && NoInfoReached(whole[..MessageLength(whole)])
  }

  lemma LacksExact(s: seq<byte>)
    ensures LacksRenegotiationInfo(s) <==> ShowsNoInfo(s)
  {
    hide AssembleServerHello, HasExtension, HasMessage, MessageLength, PassesGuard, Payload, Reaches, BlockEnd;
    AssembleExact(s);
    if AssembleServerHello([], s).Some? {
      HasExtensionExact(AssembleServerHello([], s).value, RENEGOTIATION_INFO);
    }
  }

  /** Insecure exactly when the dial and the write succeed and such a ServerHello is shown. */
  lemma InsecureExact(dial: Option<Peer>)
    ensures InsecureRenegotiation(dial) <==>
            dial.Some? && dial.value.accepts([RENEGOTIATION_HELLO]) && ShowsNoInfo(Answer(dial.value))
  {
    hide LacksRenegotiationInfo, ShowsNoInfo, RENEGOTIATION_HELLO, Flatten;
    if dial.Some? {
      assert [] + [RENEGOTIATION_HELLO] == [RENEGOTIATION_HELLO];
      LacksExact(Answer(dial.value));
    }
  }

  /** So a failed dial, a refused write, a first record of another type and a stream that ends early all give false. */
  lemma NothingToInspect(dial: Option<Peer>)
    requires match dial
             case None => true
             case Some(peer) =>
               !peer.accepts([RENEGOTIATION_HELLO]) || !StartsWithHandshake(Answer(peer)) || !HasMessage(Payload(Answer(peer)))
    ensures !InsecureRenegotiation(dial)
  {
    hide RENEGOTIATION_HELLO, Answer, HasMessage, NoInfoReached;
    InsecureExact(dial);
    if dial.Some? && !StartsWithHandshake(Answer(dial.value)) {
      EmptyPayload(Answer(dial.value));
    }
  }

  lemma EmptyPayload(s: seq<byte>)
    requires !StartsWithHandshake(s)
    ensures !HasMessage(Payload(s))
  {
  }

  // ----- a ServerHello that is not clean -----

  /** The message is the encoding of some ServerHello. */
  ghost predicate IsClean(msg: seq<byte>) {
    exists sh: ServerHello :: WellFormed(sh) && msg == EncodeServerHello(sh)
  }

  /** The promise that nothing is called insecure without a clean ServerHello. */
  ghost predicate InspectsCleanly(s: seq<byte>) {
    LacksRenegotiationInfo(s) ==> HasMessage(Payload(s)) && IsClean(Payload(s)[..MessageLength(Payload(s))])
  }

  /**
   It fails exactly when the first message is a ServerHello in type only: it passes the guard, is the
   encoding of none, and the walk over it reaches no renegotiation_info.
   */
  lemma CleanExact(s: seq<byte>)
    ensures !InspectsCleanly(s) <==>
            && ShowsNoInfo(s) && !IsClean(Payload(s)[..MessageLength(Payload(s))])
  {
    hide LacksRenegotiationInfo, IsClean, NoInfoReached, HasMessage, MessageLength, PassesGuard, Payload;
    LacksExact(s);
  }

  lemma CleanIsLong(sh: ServerHello)
    requires WellFormed(sh)
    ensures |EncodeServerHello(sh)| >= 42
  {
    hide EncodeExtensions;
    ServerHelloLayout(sh);
  }

  /** Four bytes of type ServerHello and nothing in it are called insecure. */
  lemma EmptyHelloInsecure()
    ensures var s := [0x16, 3, 3, 0, 4, 2, 0, 0, 0]; LacksRenegotiationInfo(s) && !InspectsCleanly(s)
  {
    var s: seq<byte> := [0x16, 3, 3, 0, 4, 2, 0, 0, 0];
    var m: seq<byte> := [2, 0, 0, 0];
    EmptyHelloPayload();
    hide EncodeServerHello, WellFormed, Payload, MessageLength;
    assert m[..4] == m;
    assert !IsClean(m) by {
      if sh: ServerHello :| WellFormed(sh) && m == EncodeServerHello(sh) {
        CleanIsLong(sh);
      }
    }
    CleanExact(s);
    LacksExact(s);
  }

  lemma EmptyHelloPayload()
    ensures var s: seq<byte> := [0x16, 3, 3, 0, 4, 2, 0, 0, 0];
            Payload(s) == [2, 0, 0, 0] && HasMessage(Payload(s)) && MessageLength(Payload(s)) == 4
  {
    var s: seq<byte> := [0x16, 3, 3, 0, 4, 2, 0, 0, 0];
    var m: seq<byte> := [2, 0, 0, 0];
    assert GetU16(s, 3) == 4 && GetU24(m, 1) == 0;
    assert FirstBody(s) == m && AfterFirst(s) == [];
    PayloadStep(s);
    assert Payload([]) == [];
  }

  /**
   Whatever the fragmentation: on a server whose first message is a well-formed ServerHello of at
   most 65536 bytes, the verdict is insecure exactly when that ServerHello lacks renegotiation_info.
   */
  lemma VerdictExact(s: seq<byte>, sh: ServerHello, rest: seq<byte>)
    requires WellFormed(sh) && |EncodeServerHello(sh)| <= 0x1_0000
    requires Payload(s) == EncodeServerHello(sh) + rest
    ensures LacksRenegotiationInfo(s) <==> !(sh.extensions.Some? && Occurs(sh.extensions.value, RENEGOTIATION_INFO))
  {
    hide HasExtension, ParseServerHelloSuite, Payload, AssembleServerHello;
    var m := EncodeServerHello(sh);
    assert m[0] == 0x02 && GetU24(m, 1) == |m| - 4 by {
      hide ServerHelloPrefix, EncodeExtensions;
      WrapHandshakeParts(0x02, m[4..]);
      assert m == WrapHandshake(0x02, m[4..]);
    }
    hide EncodeServerHello, GetU24;
    GetU24Prefix(m, rest);
    assert [] + Payload(s) == m + rest && (m + rest)[..|m|] == m;
    AssembleComplete([], s);
    ServerHelloParsers(sh, RENEGOTIATION_INFO);
  }

  lemma GetU24Prefix(m: seq<byte>, rest: seq<byte>)
    requires |m| >= 4
    ensures GetU24(m + rest, 1) == GetU24(m, 1)
  {
  }
}
