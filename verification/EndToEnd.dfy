/** The CBC probe against servers that do what RFC 5246 says, from the bytes on the wire to the verdict. */
module EndToEnd {
  import opened Bytes
  import opened Wrappers
  import opened Network
  import opened Primitives
  import opened Prf
  import opened RecordLayer
  import opened Driver
  import opened Session
  import opened Server
  import opened CbcOracle

  /** Connection i is answered by a server that sent the flight of views(i), holds its key, and answers as it accepts. */
  ghost predicate RfcServer(c: Crypto, w: World, host: seq<byte>, views: nat -> ServerView, i: nat) {
    w.dial(i).Some? && w.rnd(i).clientRandom.Some? ==>
      && Matches(c, w.dial(i).value, host, w.rnd(i).clientRandom.value, views(i))
      && AnswersAsServer(c, w.dial(i).value, views(i))
      && EndsWithFlight(w.dial(i).value, host, w.rnd(i).clientRandom.value)
  }

  /** When connection i carries a session. */
  ghost predicate Allows(c: Crypto, w: World, host: seq<byte>, view: ServerView, i: nat) {
    var h := Handshake(c, w.dial(i), w.rnd(i), host);
    && h.Some? && |h.value.link.sent| >= 2 && |h.value.link.sent[0]| >= 5 && |h.value.link.sent[1]| >= 5
    && LetsDerive(host, view.hello, h.value.link.sent[1]) && !HasCertificateRequest(view.flight)
    && (!HasHelloRequest(view.flight) ||
        exists master :: Derives(c, h.value.link.sent, view, master, h.value.keys) &&
                         FinishedCoincide(c, master, h.value.link.sent, view.flight))
  }

  /** On every session the server decodes the probe's record under keys it derives itself, and shows that by policy p(i). */
  ghost predicate DecodesUnderOwnKeys(c: Crypto, w: World, host: seq<byte>, view: ServerView, p: Policy, i: nat) {
    var s := SessionAt(c, w, host, i);
    s.Some? && |s.value.link.sent| >= 2 && TakesStimulus(c, s.value, host, VectorAt(i)) ==>
      forall master, keys :: Derives(c, s.value.link.sent, view, master, keys) ==>
        Exchange(c, Sessions(c, w, host), host, VectorAt(i), i) ==
        Some(React(p, ServerReceives(c, keys, 1, Stimulus(c, s.value, host, VectorAt(i)))))
  }

  /** A session is established exactly when flight and lengths allow, and client and server then hold the same keys. */
  lemma SessionAgreed(c: Crypto, w: World, host: seq<byte>, views: nat -> ServerView, i: nat)
    requires AesInverts(c) && EcdhCommutes(c) && RfcServer(c, w, host, views, i)
    ensures var s := SessionAt(c, w, host, i);
            && (s.Some? <==> Allows(c, w, host, views(i), i))
            && (s.Some? ==> |s.value.link.sent| == 4)
            && (s.Some? ==> exists master :: Derives(c, s.value.link.sent, views(i), master, s.value.keys))
            && (s.Some? ==> forall master, keys :: Derives(c, s.value.link.sent, views(i), master, keys) ==> keys == s.value.keys)
  {
    hide Matches, AnswersAsServer, EndsWithFlight, Establish, Handshake, Derives, LetsDerive, HasCertificateRequest,
         HasHelloRequest, FinishedCoincide;
    if Handshake(c, w.dial(i), w.rnd(i), host).Some? {
      ServerSession(c, w.dial(i).value, w.rnd(i), host, views(i));
    }
    if Establish(c, w.dial(i), w.rnd(i), host).Some? {
      var p := SessionSplits(c, w.dial(i).value, w.rnd(i), host);
    }
  }

  lemma OwnKeysDecode(c: Crypto, w: World, host: seq<byte>, views: nat -> ServerView, p: nat -> Policy)
    requires AesInverts(c) && EcdhCommutes(c)
    requires forall i: nat :: i <= 6 ==> RfcServer(c, w, host, views, i)
    requires forall i: nat :: 1 <= i <= 6 ==> DecodesUnderOwnKeys(c, w, host, views(i), p(i), i)
    ensures DecodingServer(c, Sessions(c, w, host), host, p)
  {
    hide RfcServer, SessionAt, Exchange, TakesStimulus, Derives, React, ServerReceives, Stimulus, Allows;
    forall i: nat | 1 <= i <= 6 && Sessions(c, w, host)(i).Some? &&
                    TakesStimulus(c, Sessions(c, w, host)(i).value, host, VectorAt(i))
      ensures Sessions(c, w, host)(i).value.iv.Some?
      ensures Exchange(c, Sessions(c, w, host), host, VectorAt(i), i) ==
              Some(React(p(i), ServerReceives(c, Sessions(c, w, host)(i).value.keys, 1,
                                              Stimulus(c, Sessions(c, w, host)(i).value, host, VectorAt(i)))))
    {
      DrawnIv(c, Sessions(c, w, host)(i).value, host, VectorAt(i));
      SessionAgreed(c, w, host, views, i);
      assert DecodesUnderOwnKeys(c, w, host, views(i), p(i), i);
    }
  }

  /**
   The verdict on RFC 5246 servers: the sessions are those their flights and lengths allow, and on
   them the verdict is that of the six reactions.
   */
  lemma RfcServersVerdict(c: Crypto, w: World, host: seq<byte>, views: nat -> ServerView, p: nat -> Policy)
    requires AesInverts(c) && EcdhCommutes(c) && NoCollisions(c, Sessions(c, w, host), host)
    requires forall i: nat :: i <= 6 ==> RfcServer(c, w, host, views, i)
    requires forall i: nat :: 1 <= i <= 6 ==> DecodesUnderOwnKeys(c, w, host, views(i), p(i), i)
    ensures var sessions, r := Sessions(c, w, host), (i: nat) => Shown(p, host, i);
            && (ProbeCompletes(c, sessions, host) <==>
                && (forall i: nat :: i <= 6 ==> Allows(c, w, host, views(i), i))
                && forall i: nat :: 1 <= i <= 6 && sessions(i).Some? ==> TakesStimulus(c, sessions(i).value, host, VectorAt(i)))
            && Probe(c, sessions, host) ==
               if ProbeCompletes(c, sessions, host) && Repeats(r) then ClassifyCbc(r(1), r(3), r(5)) else NOT_VULNERABLE
  {
    hide RfcServer, SessionAt, DecodesUnderOwnKeys, TakesStimulus, NoCollisions, Probe, ProbeCompletes, Shown, Repeats,
         ClassifyCbc, DecodingServer, Derives, Allows;
    OwnKeysDecode(c, w, host, views, p);
    VerdictByConnection(c, Sessions(c, w, host), host, p);
    ProbeCompletesExact(c, Sessions(c, w, host), host);
    forall i: nat | i <= 6 ensures Sessions(c, w, host)(i).Some? <==> Allows(c, w, host, views(i), i) {
      SessionAgreed(c, w, host, views, i);
    }
  }
}
