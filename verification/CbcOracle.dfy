/** The CBC padding-oracle probe: its decision over every server, and its exact verdict on decoding ones. */
module CbcOracle {
  import opened Bytes
  import opened Wrappers
  import opened Network
  import opened Primitives
  import opened Prf
  import opened RecordLayer
  import opened Driver
  import opened Session
  import opened Reactions
  import Rfc5246

  /** Every connection the probe may open: who answers it and what the random source returns. */
  datatype World = World(dial: nat -> Option<Peer>, rnd: nat -> Randomness)

  /** An established connection, ready for one crafted record. */
  datatype Live = Live(peer: Peer, keys: Keys, link: Link, iv: Option<Block>)

  /** The sessions the driver establishes, connection by connection; the verdict theorems take any such table. */
  function Sessions(c: Crypto, w: World, host: seq<byte>): nat -> Option<Live> {
    (i: nat) => SessionAt(c, w, host, i)
  }

  function SessionAt(c: Crypto, w: World, host: seq<byte>, i: nat): Option<Live> {
    match Establish(c, w.dial(i), w.rnd(i), host)
    case None => None
    case Some(e) => Some(Live(w.dial(i).value, e.keys, e.link, w.rnd(i).recordIv))
  }

  datatype CbcVector = VecControl | VecBadMac | VecBadPad | VecZeroLen

  /** forceBadMAC and padOverride of each stimulus. */
  function Manipulation(vec: CbcVector): (bool, int) {
    match vec
    case VecControl => (false, -1)
    case VecBadMac => (true, -1)
    case VecBadPad => (false, 255)
    case VecZeroLen => (true, 0)
  }

  function HttpRequest(host: seq<byte>): (r: seq<byte>)
    ensures |r| == 45 + |host|
  {
    Ascii("GET / HTTP/1.1\r\nHost: ") + host + Ascii("\r\nConnection: close\r\n\r\n")
  }

  /** Section 3 of RFC 7230: the lines of a message, each up to a carriage return and line feed, and what follows the last. */
  function Lines(s: seq<byte>, line: seq<byte>): (lines: seq<seq<byte>>)
    decreases |s|
  {
    if s == [] then [line]
    else if |s| >= 2 && s[0] == 13 && s[1] == 10 then [line] + Lines(s[2..], [])
    else Lines(s[1..], line + [s[0]])
  }

  predicate NoReturn(s: seq<byte>) {
    13 !in s
  }

  lemma {:induction false} LineEnds(s: seq<byte>, rest: seq<byte>, line: seq<byte>)
    requires NoReturn(s)
    ensures Lines(s + [13, 10] + rest, line) == [line + s] + Lines(rest, [])
    decreases |s|
  {
    var t := s + [13, 10] + rest;
    if s == [] {
      assert t[2..] == rest && line + s == line;
    } else {
      assert t[1..] == s[1..] + [13, 10] + rest && t[0] == s[0];
      LineEnds(s[1..], rest, line + [s[0]]);
      assert line + [s[0]] + s[1..] == line + s;
    }
  }

  /** What a web server reads: one GET for the root, the host, a request to close, and the end of the headers. */
  lemma RequestLines(host: seq<byte>)
    requires NoReturn(host)
    ensures Lines(HttpRequest(host), []) ==
            [Ascii("GET / HTTP/1.1"), Ascii("Host: ") + host, Ascii("Connection: close"), [], []]
  {
    hide Lines, NoReturn;
    var get, named, close := Ascii("GET / HTTP/1.1"), Ascii("Host: ") + host, Ascii("Connection: close");
    RequestPieces(host);
    NoReturns(host);
    LineEnds(get, named + [13, 10] + (close + [13, 10] + ([] + [13, 10] + [])), []);
    LineEnds(named, close + [13, 10] + ([] + [13, 10] + []), []);
    LineEnds(close, [] + [13, 10] + [], []);
    var nothing: seq<byte> := [];
    LineEnds(nothing, nothing, nothing);
    LastLine();
    assert nothing + get == get && nothing + named == named && nothing + close == close && nothing + nothing == nothing;
    assert [get] + ([named] + ([close] + ([nothing] + [nothing]))) == [get, named, close, nothing, nothing];
  }

  lemma LastLine()
    ensures Lines([], []) == [[]] && NoReturn([])
  {
  }

  lemma RequestPieces(host: seq<byte>)
    ensures HttpRequest(host) ==
            Ascii("GET / HTTP/1.1") + [13, 10] + ((Ascii("Host: ") + host) + [13, 10]
            + (Ascii("Connection: close") + [13, 10] + ([] + [13, 10] + [])))
  {
    hide Ascii;
    RequestHead();
    RequestTail();
    Reassociated(Ascii("GET / HTTP/1.1"), Ascii("Host: "), host, Ascii("Connection: close"), [13, 10]);
  }

  lemma RequestHead()
    ensures Ascii("GET / HTTP/1.1\r\nHost: ") == Ascii("GET / HTTP/1.1") + [13, 10] + Ascii("Host: ")
  {
  }

  lemma RequestTail()
    ensures Ascii("\r\nConnection: close\r\n\r\n") == [13, 10] + Ascii("Connection: close") + [13, 10] + [13, 10]
  {
  }

  lemma Reassociated(a: seq<byte>, b: seq<byte>, host: seq<byte>, c: seq<byte>, crlf: seq<byte>)
    ensures (a + crlf + b) + host + (crlf + c + crlf + crlf) ==
            a + crlf + ((b + host) + crlf + (c + crlf + ([] + crlf + [])))
  {
  }

  lemma NoReturns(host: seq<byte>)
    requires NoReturn(host)
    ensures NoReturn(Ascii("GET / HTTP/1.1")) && NoReturn(Ascii("Host: ") + host) && NoReturn(Ascii("Connection: close"))
  {
    NoReturnIn("GET / HTTP/1.1");
    NoReturnIn("Host: ");
    NoReturnIn("Connection: close");
  }

  lemma NoReturnIn(s: string)
    requires '\r' !in s && forall ch :: ch in s ==> ch as int < 0x80
    ensures NoReturn(Ascii(s))
  {
    forall i | 0 <= i < |s| ensures Ascii(s)[i] != 13 {
      assert s[i] in s && s[i] != 13 as char;
    }
  }

  // ----- the reaction to one record -----

  /** One record header and, for an alert, its body. */
  function CbcReactionAt(peer: Peer, link: Link): Reaction {
    var s := link.stream;
    if |s| < 5 then OfEnding(peer.ending(link.sent))
    else if s[0] == ALERT_RECORD then
      if 2 <= GetU16(s, 3) <= |s| - 5 then Reaction(Alert, s[5], s[6]) else Reaction(Alert, 0, 0)
    else Reaction(Data, 0, 0)
  }

  method ReadReaction(conn: Conn) returns (r: Reaction)
    modifies conn`pending
    ensures r == CbcReactionAt(conn.peer, old(conn.State()))
    ensures var s := old(conn.State().stream);
            && (|s| < 5 ==> r == OfEnding(conn.peer.ending(conn.sent)))
            && (|s| >= 5 && s[0] != 0x15 ==> r.kind == Data)
            && (|s| >= 5 && s[0] == 0x15 ==> r.kind == Alert)
            && (|s| >= 7 && s[0] == 0x15 && 2 <= s[3] as int * 0x100 + s[4] as int <= |s| - 5 ==>
                  r == Reaction(Alert, s[5], s[6]))
            && (|s| >= 5 && s[0] == 0x15 && !(2 <= s[3] as int * 0x100 + s[4] as int <= |s| - 5) ==> r == Reaction(Alert, 0, 0))
  {
    var header := ReadRecordHeader(conn);
    if header.None? {
      return OfEnding(conn.peer.ending(conn.sent));
    }
    if header.value.contentType == ALERT_RECORD {
      r := Reaction(Alert, 0, 0);
      if header.value.length >= 2 {
        var body := ReadPayload(conn, header.value.length);
        if body.Some? {
          r := Reaction(Alert, body.value[0], body.value[1]);
        }
      }
      return r;
    } else {
      return Reaction(Data, 0, 0);
    }
  }

  function AttemptOf(host: seq<byte>, vec: CbcVector, iv: Option<Block>): Attempt {
    Attempt(HttpRequest(host), Manipulation(vec).0, Manipulation(vec).1, iv)
  }

  /** On the session of connection i, one crafted request and the reaction to it. */
  function Exchange(c: Crypto, sessions: nat -> Option<Live>, host: seq<byte>, vec: CbcVector, i: nat): Option<Reaction> {
    match sessions(i)
    case None => None
    case Some(live) =>
      match SendStep(c, live.peer, live.keys, Sender(1, live.link), AttemptOf(host, vec, live.iv))
      case None => None
      case Some(s) => Some(CbcReactionAt(live.peer, s.link))
  }

  function Exchanges(c: Crypto, sessions: nat -> Option<Live>, host: seq<byte>): Table<CbcVector> {
    (vec: CbcVector, i: nat) => Exchange(c, sessions, host, vec, i)
  }

  // ----- the decision -----

  datatype CbcResult = CbcResult(goldenDoodle: bool, zombiePoodle: bool, sleepingPoodle: bool, cve20191559: bool)

  const NOT_VULNERABLE: CbcResult := CbcResult(false, false, false, false)

  function ClassifyCbc(badMac: Reaction, badPad: Reaction, zeroLen: Reaction): CbcResult {
    var macVsPadDiffer := !Same(badMac, badPad);
    var zeroVsPadDiffer := !Same(zeroLen, badPad);
    var zeroVsMacDiffer := !Same(zeroLen, badMac);
    if !macVsPadDiffer && !zeroVsPadDiffer then NOT_VULNERABLE
    else
      CbcResult(
        macVsPadDiffer,
        macVsPadDiffer && badPad.kind != Alert && badPad.kind != badMac.kind,
        macVsPadDiffer && badPad.kind == Alert && badMac.kind == Alert
          && (badPad.alertLevel != badMac.alertLevel || badPad.alertDesc != badMac.alertDesc),
        zeroVsPadDiffer && zeroVsMacDiffer)
  }

  predicate TagsDiffer(a: Reaction, b: Reaction) {
    a.alertLevel != b.alertLevel || a.alertDesc != b.alertDesc
  }

  /**
   What each flag says: nothing exactly when the three reactions are the same; zombie that bad
   padding is answered by something other than an alert and unlike a bad MAC; sleeping that both
   are alerts with different tags; golden these two or an alert for bad padding alone.
   */
  lemma ClassifyMeaning(badMac: Reaction, badPad: Reaction, zeroLen: Reaction)
    ensures var r := ClassifyCbc(badMac, badPad, zeroLen);
            && (r == NOT_VULNERABLE <==> Same(badMac, badPad) && Same(zeroLen, badPad))
            && (r.goldenDoodle <==> !Same(badMac, badPad))
            && (r.zombiePoodle <==> badPad.kind != Alert && badPad.kind != badMac.kind)
            && (r.sleepingPoodle <==> badPad.kind == badMac.kind == Alert && TagsDiffer(badMac, badPad))
            && (r.goldenDoodle <==> r.zombiePoodle || r.sleepingPoodle || (badPad.kind == Alert && badMac.kind != Alert))
            && !(r.zombiePoodle && r.sleepingPoodle)
            && (r.cve20191559 <==> !Same(zeroLen, badPad) && !Same(zeroLen, badMac))
  {
  }

  const REPETITIONS: nat := 2

  /** Connection 0 is the gate; each vector then takes two connections. */
  function Decide(gate: bool, x: Table<CbcVector>): CbcResult {
    if !gate then NOT_VULNERABLE
    else
      match Stable(x, VecBadMac, 1, REPETITIONS)
      case None => NOT_VULNERABLE
      case Some(badMac) =>
        match Stable(x, VecBadPad, 3, REPETITIONS)
        case None => NOT_VULNERABLE
        case Some(badPad) =>
          match Stable(x, VecZeroLen, 5, REPETITIONS)
          case None => NOT_VULNERABLE
          case Some(zeroLen) => ClassifyCbc(badMac, badPad, zeroLen)
  }

  function Probe(c: Crypto, sessions: nat -> Option<Live>, host: seq<byte>): CbcResult {
    Decide(sessions(0).Some?, Exchanges(c, sessions, host))
  }

  /** The probe as it runs: it counts the connections it opens. */
  class CbcProber {
    const crypto: Crypto
    const world: World
    var connections: nat

    constructor (crypto: Crypto, world: World)
      ensures this.crypto == crypto && this.world == world && connections == 0
    {
      this.crypto, this.world, connections := crypto, world, 0;
    }

    method CbcExchange(host: seq<byte>, vec: CbcVector) returns (r: Option<Reaction>)
      modifies this
      ensures connections == old(connections) + 1
      ensures r == Exchanges(crypto, Sessions(crypto, world, host), host)(vec, old(connections))
    {
      hide Establish, CbcReactionAt, SealAttempt;
      var i := connections;
      connections := connections + 1;
      var sess := EstablishCbcSession(crypto, world.dial(i), world.rnd(i), host);
      if sess == null {
        return None;
      }
      var req := HttpRequest(host);
      var forceBadMac, padOverride := false, -1;
      match vec {
        case VecControl => forceBadMac, padOverride := false, -1;
        case VecBadMac => forceBadMac, padOverride := true, -1;
        case VecBadPad => forceBadMac, padOverride := false, 255;
        case VecZeroLen => forceBadMac, padOverride := true, 0;
      }
      var ok := sess.SendCrafted(req, forceBadMac, padOverride, world.rnd(i).recordIv);
      if !ok {
        return None;
      }
      var reaction := ReadReaction(sess.conn);
      return Some(reaction);
    }

    method StableCbcReaction(host: seq<byte>, vec: CbcVector, reps: nat) returns (r: Option<Reaction>)
      requires reps >= 1
      modifies this
      ensures connections <= old(connections) + reps
      ensures r.Some? ==> connections == old(connections) + reps
      ensures r == Stable(Exchanges(crypto, Sessions(crypto, world, host), host), vec, old(connections), reps)
    {
      hide Exchange;
      var first := Reaction(Error, 0, 0);
      ghost var x, start := Exchanges(crypto, Sessions(crypto, world, host), host), connections;
      for i := 0 to reps
        invariant connections == start + i
        invariant i > 0 ==> x(vec, start) == Some(first)
        invariant Agree(x, vec, start, i, first)
      {
        var react := CbcExchange(host, vec);
        assert react == x(vec, start + i);
        if react.None? {
          assert !Agree(x, vec, start, reps, first);
          return None;
        }
        if i == 0 {
          first := react.value;
        }
        AgreeStep(x, vec, start, i, reps, first);
        if i > 0 && !Same(react.value, first) {
          return None;
        }
      }
      return Some(first);
    }

    method ProbeCbcPaddingOracles(host: seq<byte>) returns (result: CbcResult)
      requires connections == 0
      modifies this
      ensures result == Probe(crypto, Sessions(crypto, world, host), host)
      ensures connections <= 7
    {
      var sess := EstablishCbcSession(crypto, world.dial(0), world.rnd(0), host);
      connections := 1;
      if sess == null {
        return NOT_VULNERABLE;
      }
      var badMac := StableCbcReaction(host, VecBadMac, REPETITIONS);
      if badMac.None? {
        return NOT_VULNERABLE;
      }
      var badPad := StableCbcReaction(host, VecBadPad, REPETITIONS);
      if badPad.None? {
        return NOT_VULNERABLE;
      }
      var zeroLen := StableCbcReaction(host, VecZeroLen, REPETITIONS);
      if zeroLen.None? {
        return NOT_VULNERABLE;
      }
      return ClassifyCbc(badMac.value, badPad.value, zeroLen.value);
    }
  }

  // ----- verdicts over every server -----

  function VectorAt(i: nat): CbcVector {
    if i <= 2 then VecBadMac else if i <= 4 then VecBadPad else VecZeroLen
  }

  /** The gate opens and all six exchanges give a reaction. */
  predicate Completes(gate: bool, x: Table<CbcVector>) {
    gate && forall i :: 1 <= i <= 6 ==> x(VectorAt(i), i).Some?
  }

  function ReactionAt(x: Table<CbcVector>, i: nat): Reaction
    requires x(VectorAt(i), i).Some?
  {
    x(VectorAt(i), i).value
  }

  /**
   Over every server, adversarial ones included: something is flagged exactly when all connections
   complete, every vector reproduces its reaction, and two vectors' reactions differ.
   */
  lemma FlagExact(gate: bool, x: Table<CbcVector>)
    ensures Decide(gate, x) != NOT_VULNERABLE <==>
            && Completes(gate, x)
            && Same(ReactionAt(x, 2), ReactionAt(x, 1)) && Same(ReactionAt(x, 4), ReactionAt(x, 3))
            && Same(ReactionAt(x, 6), ReactionAt(x, 5))
            && !(Same(ReactionAt(x, 1), ReactionAt(x, 3)) && Same(ReactionAt(x, 5), ReactionAt(x, 3)))
  {
    StableTwice(x, VecBadMac, 1);
    StableTwice(x, VecBadPad, 3);
    StableTwice(x, VecZeroLen, 5);
    if x(VecBadMac, 1).Some? && x(VecBadMac, 2).Some? && x(VecBadPad, 3).Some? && x(VecBadPad, 4).Some?
       && x(VecZeroLen, 5).Some? && x(VecZeroLen, 6).Some? {
      assert gate ==> Completes(gate, x);
    }
    assert VectorAt(1) == VectorAt(2) == VecBadMac && VectorAt(3) == VectorAt(4) == VecBadPad
        && VectorAt(5) == VectorAt(6) == VecZeroLen;
  }

  /** The reaction on connection i once its record is written. */
  function ReactionOn(c: Crypto, sessions: nat -> Option<Live>, host: seq<byte>, i: nat): Reaction
    requires sessions(i).Some? && TakesStimulus(c, sessions(i).value, host, VectorAt(i))
  {
    var live := sessions(i).value;
    var sent := live.link.sent + [Stimulus(c, live, host, VectorAt(i))];
    CbcReactionAt(live.peer, Link(sent, live.link.stream + Flatten(live.peer.reply(sent))))
  }

  /** The seven sessions are established and the six records are taken. */
  predicate AllTaken(c: Crypto, sessions: nat -> Option<Live>, host: seq<byte>) {
    && sessions(0).Some?
    && forall i :: 1 <= i <= 6 ==> sessions(i).Some? && TakesStimulus(c, sessions(i).value, host, VectorAt(i))
  }

  /**
   The probe's answer over every server: the classification of the reactions on connections 1, 3
   and 5 when everything is taken and each vector repeats its own, and four falses otherwise.
   */
  lemma ProbeExact(c: Crypto, sessions: nat -> Option<Live>, host: seq<byte>)
    ensures Probe(c, sessions, host) ==
            if AllTaken(c, sessions, host) && Repeats((i: nat) => Reacted(c, sessions, host, i))
            then ClassifyCbc(ReactionOn(c, sessions, host, 1), ReactionOn(c, sessions, host, 3), ReactionOn(c, sessions, host, 5))
            else NOT_VULNERABLE
  {
    hide Exchange, AllTaken, Reacted, ReactionOn, ClassifyCbc, Decide, Repeats, ProbeCompletes, Completes;
    TakenMeans(c, sessions, host);
    ProbeCompletesMeans(c, sessions, host);
    if AllTaken(c, sessions, host) {
      forall i: nat | 1 <= i <= 6 ensures Exchange(c, sessions, host, VectorAt(i), i) == Some(Reacted(c, sessions, host, i)) {
        ReactedOn(c, sessions, host, i);
      }
      FirstReactions(c, sessions, host);
      DecideByConnection(sessions(0).Some?, Exchanges(c, sessions, host), (i: nat) => Reacted(c, sessions, host, i));
    } else {
      IncompleteDecides(sessions(0).Some?, Exchanges(c, sessions, host));
    }
  }

  lemma TakenMeans(c: Crypto, sessions: nat -> Option<Live>, host: seq<byte>)
    ensures AllTaken(c, sessions, host) <==> ProbeCompletes(c, sessions, host)
  {
    hide ProbeCompletes, TakesStimulus;
    ProbeCompletesExact(c, sessions, host);
  }

  lemma ReactedOn(c: Crypto, sessions: nat -> Option<Live>, host: seq<byte>, i: nat)
    requires AllTaken(c, sessions, host) && 1 <= i <= 6
    ensures Exchange(c, sessions, host, VectorAt(i), i) == Some(Reacted(c, sessions, host, i))
  {
    hide Exchange, ReactionOn, TakesStimulus, VectorAt;
    assert sessions(i).Some? && TakesStimulus(c, sessions(i).value, host, VectorAt(i));
    ExchangedOn(c, sessions, host, i);
  }

  lemma FirstReactions(c: Crypto, sessions: nat -> Option<Live>, host: seq<byte>)
    requires AllTaken(c, sessions, host)
    ensures forall i :: 1 <= i <= 6 ==>
              && sessions(i).Some? && TakesStimulus(c, sessions(i).value, host, VectorAt(i))
              && Reacted(c, sessions, host, i) == ReactionOn(c, sessions, host, i)
  {
    hide ReactionOn, TakesStimulus;
  }

  function Reacted(c: Crypto, sessions: nat -> Option<Live>, host: seq<byte>, i: nat): Reaction {
    if AllTaken(c, sessions, host) && 1 <= i <= 6 then ReactionOn(c, sessions, host, i) else Reaction(Error, 0, 0)
  }

  lemma ProbeCompletesMeans(c: Crypto, sessions: nat -> Option<Live>, host: seq<byte>)
    ensures ProbeCompletes(c, sessions, host) == Completes(sessions(0).Some?, Exchanges(c, sessions, host))
  {
  }

  lemma IncompleteDecides(gate: bool, x: Table<CbcVector>)
    requires !Completes(gate, x)
    ensures Decide(gate, x) == NOT_VULNERABLE
  {
    hide Decide;
    FlagExact(gate, x);
  }

  lemma ExchangedOn(c: Crypto, sessions: nat -> Option<Live>, host: seq<byte>, i: nat)
    ensures Exchange(c, sessions, host, VectorAt(i), i) ==
            if sessions(i).Some? && TakesStimulus(c, sessions(i).value, host, VectorAt(i))
            then Some(ReactionOn(c, sessions, host, i)) else None
  {
    hide SealAttempt, CbcReactionAt, HttpRequest, Flatten;
  }

  /** The four plaintexts, written out: content, MAC or its last byte inverted, and the padding. */
  function StimulusBytes(req: seq<byte>, mac: Sha1Digest, vec: CbcVector): seq<byte> {
    var bad := mac[..19] + [255 - mac[19]];
    var p := 15 - (|req| + 20) % 16;
    match vec
    case VecControl => req + mac + Fill(p, p + 1)
    case VecBadMac => req + bad + Fill(p, p + 1)
    case VecBadPad => req + mac + Fill(255, 256)
    case VecZeroLen => req + bad + [0]
  }

  /** Zero bytes up to the next whole block, none if there is one. */
  function WithZeros(s: seq<byte>): (t: seq<byte>)
    ensures |t| % 16 == 0 && s <= t && |t| < |s| + 16 && forall j :: |s| <= j < |t| ==> t[j] == 0
  {
    s + Fill(0, (16 - |s| % 16) % 16)
  }

  /** The stimulus is an application data record over that plaintext, with the MAC of section 6.2.3.1 under number 1. */
  lemma StimulusWritten(c: Crypto, keys: Keys, host: seq<byte>, vec: CbcVector, iv: Block)
    ensures var plain := StimulusBytes(HttpRequest(host), Rfc5246.RecordMac(c, keys.clientMac, 1, 0x17, HttpRequest(host)), vec);
            SealAttempt(c, keys, 1, AttemptOf(host, vec, Some(iv))) ==
            WrapRecord(0x17, iv + CbcEncrypt(c, keys.clientKey, iv, WithZeros(plain)))
  {
    hide *;
    var (forceBadMac, padOverride) := Manipulation(vec);
    var req := HttpRequest(host);
    var plain := Plain(c, keys.clientMac, 1, APPLICATION_DATA_RECORD, req, forceBadMac, padOverride);
    StimulusPlain(c, keys.clientMac, req, vec);
    SealedAs(c, keys, host, vec, iv);
  }

  lemma SealedAs(c: Crypto, keys: Keys, host: seq<byte>, vec: CbcVector, iv: Block)
    ensures var plain := Plain(c, keys.clientMac, 1, 0x17, HttpRequest(host), Manipulation(vec).0, Manipulation(vec).1);
            SealAttempt(c, keys, 1, AttemptOf(host, vec, Some(iv))) ==
            WrapRecord(0x17, iv + CbcEncrypt(c, keys.clientKey, iv, WithZeros(plain)))
  {
    hide HttpRequest, CbcEncrypt, WrapRecord, MacInput, Fill, Crafted, Manipulation;
  }

  lemma StimulusPlain(c: Crypto, macKey: seq<byte>, req: seq<byte>, vec: CbcVector)
    ensures Plain(c, macKey, 1, 0x17, req, Manipulation(vec).0, Manipulation(vec).1) ==
            StimulusBytes(req, Rfc5246.RecordMac(c, macKey, 1, 0x17, req), vec)
  {
    hide MacInput, Rfc5246.MacHeader, Fill, Flip;
    MacInputIsRfc(1, 0x17, req);
    FlipIsComplement(Rfc5246.RecordMac(c, macKey, 1, 0x17, req));
    OneZero();
  }

  lemma OneZero()
    ensures Fill(0, 1) == [0]
  {
  }

  // ----- what the stimuli decode to -----

  /** The 16-bit record length can hold the stimulus. */
  predicate StimulusFits(host: seq<byte>, vec: CbcVector) {
    FitsRecord(|HttpRequest(host)|, Manipulation(vec).1)
  }

  /** The part of an overlong stimulus that its length field announces, a prefix of the request; none if too short. */
  function Overlong(host: seq<byte>, vec: CbcVector): Option<seq<byte>>
    requires !StimulusFits(host, vec)
  {
    var length := AnnouncedLength(|HttpRequest(host)|, Manipulation(vec).1);
    if length < 32 then None else Some(HttpRequest(host)[..length - 16])
  }

  /** What each vector decodes to: of the manipulated ones only a host length of 15 modulo 16 is accepted. */
  function DecodedAs(host: seq<byte>, vec: CbcVector): Decoded {
    if !StimulusFits(host, vec) then
      match Overlong(host, vec)
      case None => Malformed
      case Some(prefix) => if PaddingOk(prefix) then BadMac else BadPadding
    else if vec == VecControl || (vec == VecBadPad && |host| % 16 == 15) then Accepted(HttpRequest(host))
    else BadMac
  }

  /** Bytes that are not a MAC happen to be the MAC of what precedes them. */
  predicate Collides(c: Crypto, macKey: seq<byte>, host: seq<byte>, vec: CbcVector) {
    if !StimulusFits(host, vec) then
      var prefix := Overlong(host, vec);
      prefix.Some? && CheckPlaintext(c, macKey, 1, APPLICATION_DATA_RECORD, prefix.value).Accepted?
    else if vec == VecZeroLen then ZeroPadCollides(c, macKey, 1, APPLICATION_DATA_RECORD, HttpRequest(host))
    else vec == VecBadPad && Pad255Collides(c, macKey, 1, APPLICATION_DATA_RECORD, HttpRequest(host))
  }

  lemma StimulusDecodes(c: Crypto, keys: Keys, host: seq<byte>, vec: CbcVector, iv: Block)
    requires AesInverts(c) && !Collides(c, keys.clientMac, host, vec)
    ensures ServerReceives(c, keys, 1, SealAttempt(c, keys, 1, AttemptOf(host, vec, Some(iv)))) == DecodedAs(host, vec)
  {
    hide CheckPlaintext, ZeroFilled, Crafted, Seal, ServerReceives, HttpRequest, ZeroPadCollides, Pad255Collides, FitsRecord,
         CheckDelivered, MacInput, PaddingOk;
    var req := HttpRequest(host);
    var (forceBadMac, padOverride) := Manipulation(vec);
    ServerReceivesSealed(c, keys, 1, APPLICATION_DATA_RECORD, req, forceBadMac, padOverride, iv);
    if !StimulusFits(host, vec) {
      OverlongIsContent(c, keys.clientMac, 1, APPLICATION_DATA_RECORD,
                        c.hmacSha1(keys.clientMac, MacInput(1, APPLICATION_DATA_RECORD, req)), req, forceBadMac, padOverride);
      if Overlong(host, vec).Some? {
        NotAccepted(c, keys.clientMac, Overlong(host, vec).value);
      }
    } else {
      match vec {
        case VecControl =>
          WellFormedAccepted(c, keys.clientMac, 1, APPLICATION_DATA_RECORD, req);
        case VecBadMac =>
          BadMacRejected(c, keys.clientMac, 1, APPLICATION_DATA_RECORD, req);
        case VecBadPad =>
          Pad255Meaning(c, keys.clientMac, 1, APPLICATION_DATA_RECORD, req);
        case VecZeroLen =>
          ZeroPadMeaning(c, keys.clientMac, 1, APPLICATION_DATA_RECORD, req);
      }
    }
  }

  lemma NotAccepted(c: Crypto, macKey: seq<byte>, pt: seq<byte>)
    ensures var d := CheckPlaintext(c, macKey, 1, APPLICATION_DATA_RECORD, pt);
            d.Accepted? || d == if PaddingOk(pt) then BadMac else BadPadding
  {
  }

  // ----- servers that decode -----

  /** How a server shows what its record layer made of a record. */
  datatype Policy = Policy(badPadding: Reaction, badMac: Reaction, malformed: Reaction, accepted: seq<byte> -> Reaction)

  function React(p: Policy, d: Decoded): Reaction {
    match d
    case BadPadding => p.badPadding
    case BadMac => p.badMac
    case Malformed => p.malformed
    case Accepted(content) => p.accepted(content)
  }

  function Stimulus(c: Crypto, live: Live, host: seq<byte>, vec: CbcVector): seq<byte>
    requires live.iv.Some?
  {
    SealAttempt(c, live.keys, 1, AttemptOf(host, vec, live.iv))
  }

  /** A session with a usable key whose IV is drawn and whose peer takes the crafted record. */
  predicate TakesStimulus(c: Crypto, live: Live, host: seq<byte>, vec: CbcVector) {
    && live.iv.Some? && |live.keys.clientKey| in {16, 24, 32}
    && live.peer.accepts(live.link.sent + [Stimulus(c, live, host, vec)])
  }

  lemma ExchangeSome(c: Crypto, sessions: nat -> Option<Live>, host: seq<byte>, vec: CbcVector, i: nat)
    ensures Exchange(c, sessions, host, vec, i).Some? <==>
            sessions(i).Some? && TakesStimulus(c, sessions(i).value, host, vec)
  {
    hide SealAttempt, CbcReactionAt, HttpRequest;
  }

  /** On connection i the probe's record is answered as policy i shows its RFC 5246 decoding. */
  ghost predicate DecodingServer(c: Crypto, sessions: nat -> Option<Live>, host: seq<byte>, p: nat -> Policy) {
    forall i: nat :: 1 <= i <= 6 && sessions(i).Some? && TakesStimulus(c, sessions(i).value, host, VectorAt(i)) ==>
      Exchange(c, sessions, host, VectorAt(i), i) ==
      Some(React(p(i), ServerReceives(c, sessions(i).value.keys, 1, Stimulus(c, sessions(i).value, host, VectorAt(i)))))
  }

  ghost predicate NoCollisions(c: Crypto, sessions: nat -> Option<Live>, host: seq<byte>) {
    forall i: nat :: 1 <= i <= 6 && sessions(i).Some? ==>
      !Collides(c, sessions(i).value.keys.clientMac, host, VectorAt(i))
  }

  /** The reaction on connection i. */
  function Shown(p: nat -> Policy, host: seq<byte>, i: nat): Reaction {
    React(p(i), DecodedAs(host, VectorAt(i)))
  }

  lemma ExchangesDecode(c: Crypto, sessions: nat -> Option<Live>, host: seq<byte>, p: nat -> Policy)
    requires AesInverts(c) && DecodingServer(c, sessions, host, p) && NoCollisions(c, sessions, host)
    ensures forall i :: 1 <= i <= 6 && Exchanges(c, sessions, host)(VectorAt(i), i).Some? ==>
              Exchanges(c, sessions, host)(VectorAt(i), i).value == Shown(p, host, i)
  {
    hide Exchange, React, DecodedAs, ServerReceives, SealAttempt, Collides, TakesStimulus;
    forall i: nat | 1 <= i <= 6 && Exchanges(c, sessions, host)(VectorAt(i), i).Some?
      ensures Exchanges(c, sessions, host)(VectorAt(i), i).value == Shown(p, host, i)
    {
      ExchangeSome(c, sessions, host, VectorAt(i), i);
      DrawnIv(c, sessions(i).value, host, VectorAt(i));
      StimulusDecodes(c, sessions(i).value.keys, host, VectorAt(i), sessions(i).value.iv.value);
    }
  }

  lemma DrawnIv(c: Crypto, live: Live, host: seq<byte>, vec: CbcVector)
    ensures TakesStimulus(c, live, host, vec) ==> live.iv.Some?
  {
  }

  predicate ProbeCompletes(c: Crypto, sessions: nat -> Option<Live>, host: seq<byte>) {
    Completes(sessions(0).Some?, Exchanges(c, sessions, host))
  }

  /** The probe finishes exactly when seven sessions are established and six of them take their stimulus. */
  lemma ProbeCompletesExact(c: Crypto, sessions: nat -> Option<Live>, host: seq<byte>)
    ensures ProbeCompletes(c, sessions, host) <==>
            sessions(0).Some? && forall i :: 1 <= i <= 6 ==>
              sessions(i).Some? && TakesStimulus(c, sessions(i).value, host, VectorAt(i))
  {
    hide Exchange, TakesStimulus;
    forall i | 1 <= i <= 6
      ensures Exchanges(c, sessions, host)(VectorAt(i), i).Some? <==>
              sessions(i).Some? && TakesStimulus(c, sessions(i).value, host, VectorAt(i))
    {
      ExchangeSome(c, sessions, host, VectorAt(i), i);
    }
  }

  /** Both repetitions of each vector react alike. */
  predicate Repeats(r: nat -> Reaction) {
    Same(r(2), r(1)) && Same(r(4), r(3)) && Same(r(6), r(5))
  }

  /** The decision when connection i has reaction r(i). */
  lemma DecideByConnection(gate: bool, x: Table<CbcVector>, r: nat -> Reaction)
    requires forall i :: 1 <= i <= 6 && x(VectorAt(i), i).Some? ==> x(VectorAt(i), i).value == r(i)
    ensures Decide(gate, x) == if Completes(gate, x) && Repeats(r) then ClassifyCbc(r(1), r(3), r(5)) else NOT_VULNERABLE
  {
    hide Same, ClassifyCbc;
    FlagExact(gate, x);
    StableTwice(x, VecBadMac, 1);
    StableTwice(x, VecBadPad, 3);
    StableTwice(x, VecZeroLen, 5);
    assert VectorAt(1) == VectorAt(2) == VecBadMac && VectorAt(3) == VectorAt(4) == VecBadPad
        && VectorAt(5) == VectorAt(6) == VecZeroLen;
  }

  /**
   The exact verdict on servers that decode records, with a policy of its own on each connection: it
   depends on the six reactions alone, and the reaction to invalid padding is none of them unless a
   record is overlong.
   */
  lemma VerdictByConnection(c: Crypto, sessions: nat -> Option<Live>, host: seq<byte>, p: nat -> Policy)
    requires AesInverts(c) && DecodingServer(c, sessions, host, p) && NoCollisions(c, sessions, host)
    ensures var r := (i: nat) => Shown(p, host, i);
            Probe(c, sessions, host) ==
            if ProbeCompletes(c, sessions, host) && Repeats(r) then ClassifyCbc(r(1), r(3), r(5)) else NOT_VULNERABLE
  {
    hide Exchanges, DecodingServer, NoCollisions, Shown, ClassifyCbc, Decide, Completes, Repeats;
    ExchangesDecode(c, sessions, host, p);
    DecideByConnection(sessions(0).Some?, Exchanges(c, sessions, host), (i: nat) => Shown(p, host, i));
  }

  // ----- the same policy on every connection -----

  function Constantly(p: Policy): nat -> Policy {
    (i: nat) => p
  }

  /** The zero-length record takes the same room as the bad-MAC record, and the 255-pad record more. */
  lemma DecodedTogether(host: seq<byte>)
    ensures DecodedAs(host, VecZeroLen) == DecodedAs(host, VecBadMac)
    ensures StimulusFits(host, VecBadPad) ==> StimulusFits(host, VecBadMac)
  {
    hide HttpRequest, PaddingOk;
    assert RecordLength(|HttpRequest(host)|, 0) == RecordLength(|HttpRequest(host)|, -1);
  }

  /** A server on which the 255-pad record is answered like a bad MAC. */
  predicate AnswersAlike(p: Policy, host: seq<byte>) {
    if StimulusFits(host, VecBadPad) then |host| % 16 != 15 || Same(p.accepted(HttpRequest(host)), p.badMac)
    else Same(React(p, DecodedAs(host, VecBadPad)), React(p, DecodedAs(host, VecBadMac)))
  }

  /**
   The exact verdict on a decoding server whose reactions do not change. On a host length of 15
   modulo 16 the bad-padding record is well formed, and a server that lets the probe finish and
   answers it is flagged.
   */
  lemma VerdictExact(c: Crypto, sessions: nat -> Option<Live>, host: seq<byte>, p: Policy)
    requires AesInverts(c) && DecodingServer(c, sessions, host, Constantly(p)) && NoCollisions(c, sessions, host)
    ensures Probe(c, sessions, host) == NOT_VULNERABLE <==> AnswersAlike(p, host) || !ProbeCompletes(c, sessions, host)
    ensures StimulusFits(host, VecBadPad) && |host| % 16 == 15 && ProbeCompletes(c, sessions, host) ==>
            Probe(c, sessions, host) == ClassifyCbc(p.badMac, p.accepted(HttpRequest(host)), p.badMac)
  {
    hide Probe, ProbeCompletes, DecodingServer, NoCollisions, ClassifyCbc, HttpRequest, StimulusFits, Overlong;
    VerdictByConnection(c, sessions, host, Constantly(p));
    DecodedTogether(host);
    ClassifyMeaning(Shown(Constantly(p), host, 1), Shown(Constantly(p), host, 3), Shown(Constantly(p), host, 5));
  }

  /**
   No false verdict: for every host whose length is not 15 modulo 16, every key, IV and server that
   decodes records, whatever it shows for each outcome, all four verdicts are false. Only where the
   255-pad record overflows its length field must the rejections look alike.
   */
  lemma NoFalseVerdict(c: Crypto, sessions: nat -> Option<Live>, host: seq<byte>, p: Policy)
    requires AesInverts(c) && DecodingServer(c, sessions, host, Constantly(p)) && NoCollisions(c, sessions, host)
    requires |host| % 16 != 15 && (StimulusFits(host, VecBadPad) || p.badPadding == p.badMac == p.malformed)
    ensures Probe(c, sessions, host) == NOT_VULNERABLE
  {
    hide Probe, ProbeCompletes, DecodingServer, NoCollisions, HttpRequest, StimulusFits, Overlong;
    VerdictExact(c, sessions, host, p);
    DecodedTogether(host);
  }

  /**
   The documented promise on a server that treats every rejected record alike, for hosts of any
   length: four falses exactly when the host's length is not 15 modulo 16, the request is so long
   that the 255-pad record overflows, the answer to the request looks like a rejection, or the
   probe could not finish.
   */
  lemma UniformServer(c: Crypto, sessions: nat -> Option<Live>, host: seq<byte>, p: Policy)
    requires AesInverts(c) && DecodingServer(c, sessions, host, Constantly(p)) && NoCollisions(c, sessions, host)
    requires p.badPadding == p.badMac == p.malformed
    ensures Probe(c, sessions, host) == NOT_VULNERABLE <==>
            || |host| % 16 != 15 || !StimulusFits(host, VecBadPad)
            || Same(p.accepted(HttpRequest(host)), p.badMac) || !ProbeCompletes(c, sessions, host)
  {
    hide Probe, ProbeCompletes, DecodingServer, NoCollisions, HttpRequest, StimulusFits, Overlong;
    VerdictExact(c, sessions, host, p);
    DecodedTogether(host);
  }

  /**
   The documented promise, four falses on a server that treats every rejected record alike, fails on
   a 15-byte host name: whatever the rejection, a server that answers its requests with data and
   rejections otherwise is reported as vulnerable.
   */
  lemma HardenedServerFlagged(c: Crypto, sessions: nat -> Option<Live>, p: Policy)
    requires AesInverts(c)
    requires var host := Ascii("www.example.com");
             && DecodingServer(c, sessions, host, Constantly(p)) && NoCollisions(c, sessions, host)
             && ProbeCompletes(c, sessions, host)
    requires p.badMac.kind != Data
    requires p.accepted(HttpRequest(Ascii("www.example.com"))) == Reaction(Data, 0, 0)
    ensures Probe(c, sessions, Ascii("www.example.com")) == CbcResult(true, true, false, false)
  {
    hide Probe, ProbeCompletes, DecodingServer, NoCollisions, HttpRequest;
    VerdictExact(c, sessions, Ascii("www.example.com"), p);
  }

  // ----- encrypted alerts: section 7.2 of RFC 5246 -----

  /** What the client takes for level and description is the start of the record's IV. */
  function AlertOf(iv: Block): Reaction {
    Reaction(Alert, iv[0], iv[1])
  }

  /** Two alert records react alike exactly when their first two bytes agree, whatever their lengths. */
  lemma AlertsCompared(peer: Peer, sent: seq<seq<byte>>, x: seq<byte>, y: seq<byte>)
    requires 2 <= |x| < 0x1_0000 && 2 <= |y| < 0x1_0000
    ensures var a := CbcReactionAt(peer, Link(sent, WrapRecord(0x15, x)));
            var b := CbcReactionAt(peer, Link(sent, WrapRecord(0x15, y)));
            Same(a, b) <==> x[..2] == y[..2]
  {
    hide WrapRecord;
    AlertRecordRead(peer, sent, x);
    AlertRecordRead(peer, sent, y);
    assert x[..2] == [x[0], x[1]] && y[..2] == [y[0], y[1]];
  }

  lemma AlertRecordRead(peer: Peer, sent: seq<seq<byte>>, x: seq<byte>)
    requires 2 <= |x| < 0x1_0000
    ensures CbcReactionAt(peer, Link(sent, WrapRecord(0x15, x))) == Reaction(Alert, x[0], x[1])
  {
    var record := WrapRecord(ALERT_RECORD, x);
    TruncatedRecord(ALERT_RECORD, x);
    assert record[5..5 + |x|] == x[..|x|] == x;
    assert record[5..5 + |x|][0] == record[5] && record[5..5 + |x|][1] == record[6];
  }

  /** Whatever alert the server encrypts, the reaction is a function of the IV it drew. */
  lemma EncryptedAlertRead(c: Crypto, peer: Peer, link: Link, keys: Keys, seqNum: uint64, alert: seq<byte>, iv: Block)
    requires FitsRecord(|alert|, -1)
    requires link.stream == Seal(c, Reversed(keys), seqNum, ALERT_RECORD, alert, false, -1, iv)
    ensures CbcReactionAt(peer, link) == AlertOf(iv)
  {
    hide CbcEncrypt, Crafted, WrapRecord, ZeroFilled, MacInput, CbcReactionAt;
    var plain := Plain(c, keys.serverMac, seqNum, ALERT_RECORD, alert, false, -1);
    CraftedLength(c.hmacSha1(keys.serverMac, MacInput(seqNum, ALERT_RECORD, alert)), alert, false, -1);
    assert link == Link(link.sent, link.stream);
    AlertRecordRead(peer, link.sent, Fragment(c, keys.serverKey, iv, plain));
  }

  /** One encrypted alert for every rejected record, with the IV of its connection. */
  function Encrypting(ivs: nat -> Block, accepted: seq<byte> -> Reaction): nat -> Policy {
    (i: nat) => Policy(AlertOf(ivs(i)), AlertOf(ivs(i)), AlertOf(ivs(i)), accepted)
  }

  predicate SameTag(a: Block, b: Block) {
    a[0] == b[0] && a[1] == b[1]
  }

  /**
   The documented promise on a server that rejects every record with one encrypted alert. Where all
   manipulated records are rejected it fails exactly when the IVs agree within each vector and not
   across the vectors; for random IVs the probe almost always sees nothing. On the other hosts it
   fails exactly when the IVs of the two rejected vectors repeat, the answer being no alert.
   */
  lemma EncryptedAlerts(c: Crypto, sessions: nat -> Option<Live>, host: seq<byte>, ivs: nat -> Block,
                        accepted: seq<byte> -> Reaction)
    requires AesInverts(c) && DecodingServer(c, sessions, host, Encrypting(ivs, accepted)) && NoCollisions(c, sessions, host)
    requires accepted(HttpRequest(host)).kind != Alert
    ensures Probe(c, sessions, host) != NOT_VULNERABLE <==>
            && ProbeCompletes(c, sessions, host) && SameTag(ivs(1), ivs(2)) && SameTag(ivs(5), ivs(6))
            && ((|host| % 16 == 15 && StimulusFits(host, VecBadPad)) ||
                (SameTag(ivs(3), ivs(4)) && !(SameTag(ivs(1), ivs(3)) && SameTag(ivs(5), ivs(3)))))
    ensures Probe(c, sessions, host) != NOT_VULNERABLE ==>
            Probe(c, sessions, host) ==
            ClassifyCbc(AlertOf(ivs(1)), Shown(Encrypting(ivs, accepted), host, 3), AlertOf(ivs(5)))
  {
    hide Probe, ProbeCompletes, DecodingServer, NoCollisions, ClassifyCbc, HttpRequest, StimulusFits, Overlong, PaddingOk;
    var p := Encrypting(ivs, accepted);
    VerdictByConnection(c, sessions, host, p);
    assert VectorAt(1) == VectorAt(2) == VecBadMac && VectorAt(3) == VectorAt(4) == VecBadPad
        && VectorAt(5) == VectorAt(6) == VecZeroLen;
    ClassifyMeaning(Shown(p, host, 1), Shown(p, host, 3), Shown(p, host, 5));
  }
}
