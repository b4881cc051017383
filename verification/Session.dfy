/** Key exchange, Finished and the established session. */
module Session {
  import opened Bytes
  import opened Wrappers
  import opened Network
  import opened Primitives
  import opened Prf
  import opened Hello
  import opened Reassembly
  import opened Flights
  import opened RecordLayer
  import opened Driver

  // ----- key exchange -----

  datatype Kex = Kex(premaster: seq<byte>, body: seq<byte>)

  /** The premaster secret and the ClientKeyExchange body, from the messages of the opening. */
  function KeyExchange(c: Crypto, rnd: Randomness, params: CipherParams, opening: seq<seq<byte>>): Option<Kex>
    requires |opening| >= if params.ecdhe then 3 else 2
  {
    if params.ecdhe then EcdheExchange(c, rnd, opening[2]) else RsaExchange(c, rnd, opening[1])
  }

  function EcdheExchange(c: Crypto, rnd: Randomness, ske: seq<byte>): Option<Kex> {
    match ParseEcdheServerKeyExchange(ske)
    case None => None
    case Some((curve, serverPoint)) =>
      if !EcdhCurve(curve) then None
      else
        match c.ecdhPublic(curve, rnd.ecdhSeed)
        case None => None
        case Some(point) =>
          match c.ecdhShared(curve, rnd.ecdhSeed, serverPoint)
          case None => None
          case Some(shared) => Some(Kex(shared, [|point| % 0x100] + point))
  }

  function RsaExchange(c: Crypto, rnd: Randomness, certificate: seq<byte>): Option<Kex> {
    match LeafKey(c, certificate)
    case None => None
    case Some(pub) =>
      if rnd.premasterTail.None? then None
      else
        var premaster := [0x03, 0x03] + rnd.premasterTail.value;
        match c.rsaSeal(pub, premaster, rnd.sealSeed)
        case None => None
        case Some(sealed) => Some(Kex(premaster, U16(|sealed|) + sealed))
  }

  // ----- Finished -----

  function VerifyData(c: Crypto, master: seq<byte>, transcript: seq<byte>): (v: seq<byte>)
    ensures |v| == 12
  {
    Prf12(c, master, CLIENT_FINISHED, c.sha256(transcript), 12)
  }

  function SessionKeys(c: Crypto, params: CipherParams, master: seq<byte>, clientRandom: seq<byte>, serverRandom: seq<byte>): (k: Keys)
    ensures |k.clientKey| == |k.serverKey| == params.keyLen
  {
    CutKeys(KeyBlock(c, master, clientRandom, serverRandom, 2 * params.macLen + 2 * params.keyLen),
            params.macLen, params.keyLen)
  }

  datatype Await = Await(accepted: bool, counted: nat, stream: seq<byte>)

  /** At most n more records; sawCcs once a ChangeCipherSpec was among the earlier ones. */
  function AwaitFinished(s: seq<byte>, n: nat, sawCcs: bool): Await
    decreases n
  {
    if n == 0 || |s| < 5 || |s| < 5 + GetU16(s, 3) then Await(false, 0, [])
    else
      var rest := s[5 + GetU16(s, 3)..];
      if s[0] == ALERT_RECORD then Await(false, 0, [])
      else if s[0] == HANDSHAKE_RECORD && sawCcs then Await(true, 1, rest)
      else if s[0] == APPLICATION_DATA_RECORD && sawCcs then Await(true, 0, rest)
      else AwaitFinished(rest, n - 1, sawCcs || s[0] == CHANGE_CIPHER_SPEC_RECORD)
  }

  /** The content types of the records that arrive completely. */
  function RecordTypes(s: seq<byte>): seq<byte>
    decreases |s|
  {
    if |s| < 5 || |s| < 5 + GetU16(s, 3) then [] else [s[0]] + RecordTypes(s[5 + GetU16(s, 3)..])
  }

  /** Record i carries handshake or application data after a ChangeCipherSpec, no alert before it. */
  predicate FinishedAt(types: seq<byte>, sawCcs: bool, i: nat)
    requires i < |types|
  {
    && types[i] in {0x16, 0x17}
    && (sawCcs || 0x14 in types[..i])
    && 0x15 !in types[..i]
  }

  predicate FinishedWithin(types: seq<byte>, sawCcs: bool, n: nat) {
    exists i :: 0 <= i < n && i < |types| && FinishedAt(types, sawCcs, i)
  }

  lemma FinishedWithinStep(types: seq<byte>, sawCcs: bool, n: nat)
    requires types != [] && n > 0
    ensures FinishedWithin(types, sawCcs, n) ==
            if types[0] in {HANDSHAKE_RECORD, APPLICATION_DATA_RECORD} && sawCcs then true
            else types[0] != ALERT_RECORD &&
                 FinishedWithin(types[1..], sawCcs || types[0] == CHANGE_CIPHER_SPEC_RECORD, n - 1)
  {
    var saw' := sawCcs || types[0] == CHANGE_CIPHER_SPEC_RECORD;
    forall i | 1 <= i < |types|
      ensures FinishedAt(types, sawCcs, i) == (types[0] != ALERT_RECORD && FinishedAt(types[1..], saw', i - 1))
    {
      assert types[..i] == [types[0]] + types[1..][..i - 1];
    }
    if types[0] in {HANDSHAKE_RECORD, APPLICATION_DATA_RECORD} && sawCcs {
      assert FinishedAt(types, sawCcs, 0);
    }
    if j :| 0 <= j < n - 1 && j < |types[1..]| && FinishedAt(types[1..], saw', j) {
      assert types[0] != ALERT_RECORD ==> FinishedAt(types, sawCcs, j + 1);
    }
    if i :| 0 <= i < n && i < |types| && FinishedAt(types, sawCcs, i) {
      assert i > 0 ==> FinishedAt(types[1..], saw', i - 1);
    }
  }

  /** The six-record loop accepts exactly those streams. */
  lemma {:induction false} AwaitFinishedExact(s: seq<byte>, n: nat, sawCcs: bool)
    ensures AwaitFinished(s, n, sawCcs).accepted <==> FinishedWithin(RecordTypes(s), sawCcs, n)
    decreases n
  {
    if n > 0 && |s| >= 5 && |s| >= 5 + GetU16(s, 3) {
      FinishedWithinStep(RecordTypes(s), sawCcs, n);
      AwaitFinishedExact(s[5 + GetU16(s, 3)..], n - 1, sawCcs || s[0] == CHANGE_CIPHER_SPEC_RECORD);
    }
  }

  method ExpectServerFinished(sess: CbcSession) returns (accepted: bool)
    modifies sess`serverSeq, sess.conn`pending
    ensures var a := AwaitFinished(old(sess.conn.State().stream), 6, false);
            && accepted == a.accepted
            && (accepted ==> sess.conn.State() == Link(old(sess.conn.sent), a.stream))
            && (accepted ==> sess.serverSeq == Advance(old(sess.serverSeq), a.counted))
  {
    hide AwaitFinished, Advance;
    var sawCcs := false;
    CountsOne(sess.serverSeq);
    for i := 0 to 6
      invariant sess.serverSeq == old(sess.serverSeq)
      invariant AwaitFinished(old(sess.conn.State().stream), 6, false) ==
                AwaitFinished(sess.conn.State().stream, 6 - i, sawCcs)
    {
      AwaitStep(sess.conn.State().stream, 6 - i, sawCcs);
      var header := ReadRecordHeader(sess.conn);
      if header.None? {
        return false;
      }
      var h := header.value;
      if h.length < 0 || h.length > 0x1_0000 {
        return false;
      }
      var body := ReadPayload(sess.conn, h.length);
      if body.None? {
        return false;
      }
      if h.contentType == ALERT_RECORD {
        return false;
      } else if h.contentType == CHANGE_CIPHER_SPEC_RECORD {
        sawCcs := true;
      } else if h.contentType == HANDSHAKE_RECORD {
        if sawCcs {
          sess.serverSeq := Next(sess.serverSeq);
          return true;
        }
      } else if h.contentType == APPLICATION_DATA_RECORD {
        if sawCcs {
          return true;
        }
      }
    }
    AwaitNothing(sess.conn.State().stream, sawCcs);
    return false;
  }

  lemma AwaitStep(s: seq<byte>, n: nat, sawCcs: bool)
    requires n > 0
    ensures AwaitFinished(s, n, sawCcs) ==
            if |s| < 5 || |s| < 5 + GetU16(s, 3) || s[0] == ALERT_RECORD then Await(false, 0, [])
            else
              var rest := s[5 + GetU16(s, 3)..];
              if sawCcs && s[0] == HANDSHAKE_RECORD then Await(true, 1, rest)
              else if sawCcs && s[0] == APPLICATION_DATA_RECORD then Await(true, 0, rest)
              else AwaitFinished(rest, n - 1, sawCcs || s[0] == CHANGE_CIPHER_SPEC_RECORD)
  {
  }

  lemma AwaitNothing(s: seq<byte>, sawCcs: bool)
    ensures AwaitFinished(s, 0, sawCcs) == Await(false, 0, [])
  {
  }

  lemma CountsOne(seqNum: uint64)
    ensures Advance(seqNum, 0) == seqNum && Advance(seqNum, 1) == Next(seqNum)
  {
  }

  // ----- the whole handshake -----

  /** The four records are written and the server's answer is awaited. */
  datatype Pending = Pending(params: CipherParams, keys: Keys, link: Link)

  datatype Established = Established(params: CipherParams, keys: Keys, link: Link, serverSeq: uint64)

  function Establish(c: Crypto, dial: Option<Peer>, rnd: Randomness, host: seq<byte>): (e: Option<Established>)
    ensures e.Some? ==> dial.Some? && rnd.clientRandom.Some?
  {
    Conclude(Handshake(c, dial, rnd, host))
  }

  /** Everything up to and including the client's Finished. */
  function Handshake(c: Crypto, dial: Option<Peer>, rnd: Randomness, host: seq<byte>): (p: Option<Pending>)
    ensures p.Some? ==> dial.Some? && rnd.clientRandom.Some?
  {
    if dial.None? || rnd.clientRandom.None? then None
    else
      var hello := CbcClientHelloRecord(host, rnd.clientRandom.value);
      match Written(dial.value, Opened(dial.value), hello)
      case None => None
      case Some(l) => AfterHello(c, dial.value, rnd, hello, rnd.clientRandom.value, l)
  }

  /** The wait for the server's Finished. */
  function Conclude(p: Option<Pending>): Option<Established> {
    match p
    case None => None
    case Some(w) =>
      var a := AwaitFinished(w.link.stream, 6, false);
      if a.accepted then Some(Established(w.params, w.keys, Link(w.link.sent, a.stream), Advance(0, a.counted))) else None
  }

  function AfterHello(c: Crypto, peer: Peer, rnd: Randomness, hello: seq<byte>, clientRandom: seq<byte>, l: Link): Option<Pending>
    requires |hello| >= 5
  {
    match ReadOpening(l.stream)
    case None => None
    case Some(o) =>
      match KeyExchange(c, rnd, o.params, o.msgs)
      case None => None
      case Some(kex) =>
        match ReadRest(o)
        case None => None
        case Some(r) =>
          SendFinished(c, peer, rnd.finishedIv, hello, clientRandom, r.negotiation, kex, Link(l.sent, r.stream))
  }

  function Master(c: Crypto, n: Negotiation, kex: Kex, clientRandom: seq<byte>): seq<byte> {
    MasterSecret(c, kex.premaster, clientRandom, n.serverRandom)
  }

  /** Section 7.4.9 of RFC 5246: the messages up to, not including, the client's Finished. */
  function Transcript(hello: seq<byte>, msgs: seq<seq<byte>>, body: seq<byte>): seq<byte>
    requires |hello| >= 5
  {
    hello[5..] + Flatten(msgs) + WrapHandshake(CLIENT_KEY_EXCHANGE, body)
  }

  function FinishedMessage(c: Crypto, master: seq<byte>, transcript: seq<byte>): (m: seq<byte>)
    ensures |m| == 16
  {
    WrapHandshake(FINISHED, VerifyData(c, master, transcript))
  }

  /** ClientKeyExchange, ChangeCipherSpec and the encrypted Finished. */
  function SendFinished(c: Crypto, peer: Peer, finishedIv: Option<Block>, hello: seq<byte>, clientRandom: seq<byte>,
                        n: Negotiation, kex: Kex, link: Link): Option<Pending>
    requires |hello| >= 5
  {
    var master := Master(c, n, kex, clientRandom);
    var keys := SessionKeys(c, n.params, master, clientRandom, n.serverRandom);
    match Written(peer, link, ClientKeyExchange(kex.body))
    case None => None
    case Some(l1) =>
      match Written(peer, l1, WrapRecord(CHANGE_CIPHER_SPEC_RECORD, [0x01]))
      case None => None
      case Some(l2) =>
        if finishedIv.None? then None
        else
          var message := FinishedMessage(c, master, Transcript(hello, n.msgs, kex.body));
          match Written(peer, l2, Seal(c, keys, 0, HANDSHAKE_RECORD, message, false, -1, finishedIv.value))
          case None => None
          case Some(l3) => Some(Pending(n.params, keys, l3))
  }

  // ----- the driver itself -----

  /** The messages before the key exchange and what they negotiate. */
  method ReadOpeningMessages(hs: HsReader) returns (o: Option<Negotiation>)
    requires hs.buf == []
    modifies hs`buf, hs.conn`pending
    ensures match ReadOpening(old(hs.conn.State().stream))
            case None => o.None?
            case Some(spec) => o == Some(Negotiation(spec.msgs, spec.params, spec.serverRandom)) &&
                               hs.buf == spec.buf && hs.conn.State() == Link(old(hs.conn.sent), spec.stream)
  {
    var sh := hs.Next();
    if sh.Failed? || sh.msgType != SERVER_HELLO {
      return None;
    }
    var negotiated := ParseServerHelloSuite(sh.msg);
    if negotiated.None? {
      return None;
    }
    var params := ParamsForSuite(negotiated.value.0);
    if params.None? {
      return None;
    }
    var cert := hs.Next();
    if cert.Failed? || cert.msgType != CERTIFICATE {
      return None;
    }
    var msgs := [sh.msg] + [cert.msg];
    if params.value.ecdhe {
      var ske := hs.Next();
      if ske.Failed? || ske.msgType != SERVER_KEY_EXCHANGE {
        return None;
      }
      msgs := msgs + [ske.msg];
    }
    return Some(Negotiation(msgs, params.value, negotiated.value.1));
  }

  /** Everything after the opening, up to ServerHelloDone, appended to the transcript. */
  method SkipToDone(hs: HsReader, transcript: seq<byte>) returns (ok: bool, extended: seq<byte>)
    modifies hs`buf, hs.conn`pending
    ensures match UntilDone(old(hs.buf), old(hs.conn.State().stream))
            case None => !ok
            case Some(t) => ok && extended == transcript + Flatten(t.msgs) &&
                            hs.conn.State() == Link(old(hs.conn.sent), t.stream)
  {
    hide NextMessage;
    extended := transcript;
    ghost var seen: seq<seq<byte>> := [];
    ghost var whole := UntilDone(hs.buf, hs.conn.State().stream);
    assert transcript + Flatten(seen) == transcript;
    assert whole.Some? ==> seen + whole.value.msgs == whole.value.msgs;
    while true
      invariant hs.conn.sent == old(hs.conn.sent)
      invariant extended == transcript + Flatten(seen)
      invariant match UntilDone(hs.buf, hs.conn.State().stream)
                case None => whole.None?
                case Some(t) => whole == Some(t.(msgs := seen + t.msgs))
      decreases |hs.buf| + |hs.conn.State().stream|
    {
      ghost var rest := UntilDone(hs.buf, hs.conn.State().stream);
      var r := hs.Next();
      if r.Failed? {
        return false, extended;
      }
      extended := extended + r.msg;
      FlattenConcat(seen, [r.msg]);
      assert Flatten([r.msg]) == r.msg + Flatten([]) == r.msg;
      assert extended == transcript + Flatten(seen + [r.msg]);
      if r.msgType == SERVER_HELLO_DONE {
        return true, extended;
      }
      if rest.Some? {
        assert seen + rest.value.msgs == (seen + [r.msg]) + rest.value.msgs[1..];
      }
      seen := seen + [r.msg];
    }
  }

  method ComputeKeyExchange(c: Crypto, rnd: Randomness, params: CipherParams, opening: seq<seq<byte>>)
    returns (kex: Option<Kex>)
    requires |opening| >= if params.ecdhe then 3 else 2
    ensures kex == KeyExchange(c, rnd, params, opening)
  {
    var rsaPub := LeafKey(c, opening[1]);
    if params.ecdhe {
      var ske := ParseEcdheServerKeyExchange(opening[2]);
      if ske.None? {
        return None;
      }
      var (curve, serverPoint) := ske.value;
      if !EcdhCurve(curve) {
        return None;
      }
      var point := c.ecdhPublic(curve, rnd.ecdhSeed);
      if point.None? {
        return None;
      }
      var shared := c.ecdhShared(curve, rnd.ecdhSeed, serverPoint);
      if shared.None? {
        return None;
      }
      return Some(Kex(shared.value, [|point.value| % 0x100] + point.value));
    } else {
      if rsaPub.None? {
        return None;
      }
      if rnd.premasterTail.None? {
        return None;
      }
      var pms := [0x03, 0x03] + rnd.premasterTail.value;
      var enc := c.rsaSeal(rsaPub.value, pms, rnd.sealSeed);
      if enc.None? {
        return None;
      }
      return Some(Kex(pms, U16(|enc.value|) + enc.value));
    }
  }

  /** Keys, ClientKeyExchange, ChangeCipherSpec, Finished, and the server's acceptance. */
  method CompleteHandshake(c: Crypto, conn: Conn, finishedIv: Option<Block>, ghost hello: seq<byte>,
                           clientRandom: seq<byte>, ghost n: Negotiation, params: CipherParams,
                           serverRandom: seq<byte>, received: seq<byte>, kex: Kex)
    returns (sess: CbcSession?)
    requires |hello| >= 5 && received == hello[5..] + Flatten(n.msgs)
    requires n.params == params && n.serverRandom == serverRandom && Supported(params)
    modifies conn
    ensures sess != null ==> fresh(sess) && sess.conn == conn
    ensures Delivers(sess, c, Conclude(SendFinished(c, conn.peer, finishedIv, hello, clientRandom, n, kex, old(conn.State()))))
  {
    hide CutKeys, Prf12, AwaitFinished, Advance, MacInput, Plain, Fragment, WrapRecord, Written, U16, U24, Flatten;
    var seed := clientRandom + serverRandom;
    var master := ComputePrf12(c, kex.premaster, MASTER_SECRET, seed, 48);
    var keySeed := serverRandom + clientRandom;
    var macLen, keyLen := params.macLen, params.keyLen;
    var keyBlock := ComputePrf12(c, master, KEY_EXPANSION, keySeed, 2 * macLen + 2 * keyLen);
    var keys := SliceKeyBlock(keyBlock, macLen, keyLen);
    var s := new CbcSession(c, conn, params, keys);

    var cke := WrapHandshake(CLIENT_KEY_EXCHANGE, kex.body);
    var transcript := received + cke;
    var ok := conn.Write(WrapRecord(HANDSHAKE_RECORD, cke));
    if !ok {
      return null;
    }
    ok := conn.Write(WrapRecord(CHANGE_CIPHER_SPEC_RECORD, [0x01]));
    if !ok {
      return null;
    }
    var verifyData := ComputePrf12(c, master, CLIENT_FINISHED, c.sha256(transcript), 12);
    var finished := WrapHandshake(FINISHED, verifyData);
    var plain := s.MacThenPad(HANDSHAKE_RECORD, finished, false, -1);
    var record := s.EncryptRecord(HANDSHAKE_RECORD, plain, finishedIv);
    if record.None? {
      return null;
    }
    assert record.value == Seal(c, keys, 0, HANDSHAKE_RECORD, finished, false, -1, finishedIv.value);
    ok := conn.Write(record.value);
    if !ok {
      return null;
    }
    s.clientSeq := Next(s.clientSeq);
    var accepted := ExpectServerFinished(s);
    if !accepted {
      return null;
    }
    return s;
  }

  /** A session object with the established parameters, keys, counters and connection state. */
  ghost predicate IsSession(sess: CbcSession, c: Crypto, e: Established)
    reads sess, sess.conn
  {
    && sess.Valid() && sess.crypto == c && sess.params == e.params && sess.keys == e.keys
    && sess.clientSeq == 1 && sess.serverSeq == e.serverSeq && sess.conn.State() == e.link
  }

  ghost predicate Delivers(sess: CbcSession?, c: Crypto, e: Option<Established>)
    reads if sess == null then {} else {sess, sess.conn}
  {
    match e
    case None => sess == null
    case Some(x) => sess != null && IsSession(sess, c, x)
  }

  method EstablishCbcSession(c: Crypto, dial: Option<Peer>, rnd: Randomness, host: seq<byte>)
    returns (sess: CbcSession?)
    ensures sess != null ==> fresh(sess) && fresh(sess.conn) && dial == Some(sess.conn.peer)
    ensures Delivers(sess, c, Establish(c, dial, rnd, host))
  {
    hide AfterHello, Conclude, CbcClientHelloRecord;
    ConcludeNothing();
    if dial.None? {
      return null;
    }
    var conn := new Conn(dial.value);
    if rnd.clientRandom.None? {
      return null;
    }
    var clientRandom := rnd.clientRandom.value;
    var hello := CbcClientHello(host, clientRandom);
    var ok := conn.Write(hello);
    if !ok {
      return null;
    }
    sess := DriveHandshake(c, conn, rnd, hello, clientRandom);
  }

  lemma ConcludeNothing()
    ensures Conclude(None) == None
  {
  }

  /** The driver from the written ClientHello on; the transcript starts without its record header. */
  method DriveHandshake(c: Crypto, conn: Conn, rnd: Randomness, hello: seq<byte>, clientRandom: seq<byte>)
    returns (sess: CbcSession?)
    requires |hello| >= 5
    modifies conn
    ensures sess != null ==> fresh(sess) && sess.conn == conn
    ensures Delivers(sess, c, Conclude(AfterHello(c, conn.peer, rnd, hello, clientRandom, old(conn.State()))))
  {
    hide ReadOpening, KeyExchange, UntilDone, SendFinished, AwaitFinished, Advance, Flatten;
    var transcript := hello[5..];
    var hs := new HsReader(conn);
    ghost var spec := ReadOpening(conn.State().stream);
    var o := ReadOpeningMessages(hs);
    if o.None? {
      return null;
    }
    var opening := o.value;
    var kex := ComputeKeyExchange(c, rnd, opening.params, opening.msgs);
    if kex.None? {
      return null;
    }
    transcript := transcript + Flatten(opening.msgs);
    var ok;
    ok, transcript := SkipToDone(hs, transcript);
    if !ok {
      return null;
    }
    ghost var r := ReadRest(spec.value).value;
    FlattenConcat(opening.msgs, UntilDone(spec.value.buf, spec.value.stream).value.msgs);
    sess := CompleteHandshake(c, conn, rnd.finishedIv, hello, clientRandom, r.negotiation,
                              opening.params, opening.serverRandom, transcript, kex.value);
  }
}
