/** The two older readers of the first flight, as refinements of the reassembler. */
module Flights {
  import opened Bytes
  import opened Wrappers
  import opened Network
  import opened Primitives
  import opened Hello
  import opened Reassembly

  // ----- the first message, if it is a ServerHello -----

  /** The message at the front of buf, once the record loop has stopped. */
  function FirstServerHello(buf: seq<byte>): Option<seq<byte>> {
    if |buf| < 4 || buf[0] != SERVER_HELLO || MessageLength(buf) > |buf| then None
    else Some(buf[..MessageLength(buf)])
  }

  function AssembleServerHello(buf: seq<byte>, s: seq<byte>): Option<seq<byte>>
    decreases |s|
  {
    if HasMessage(buf) then FirstServerHello(buf)
    else
      match FirstRecord(s)
      case Broken => None
      case WrongRecord => None
      case Body(body) =>
        var grown := buf + body;
        if |grown| > 0x1_0000 then FirstServerHello(grown)
        else if |grown| >= 4 && MessageLength(grown) > 0x1_0000 then None
        else AssembleServerHello(grown, AfterFirst(s))
  }

  method ReadServerHelloMessage(conn: Conn) returns (msg: Option<seq<byte>>)
    modifies conn`pending
    ensures msg == AssembleServerHello([], old(conn.State().stream))
  {
    var buf: seq<byte> := [];
    while |buf| < 4 || |buf| < 4 + GetU24(buf, 1)
      invariant AssembleServerHello([], old(conn.State().stream)) == AssembleServerHello(buf, conn.State().stream)
      decreases |conn.State().stream|
    {
      var r := ReadHandshakeRecord(conn);
      match r {
        case Broken => return None;
        case WrongRecord => return None;
        case Body(body) => buf := buf + body;
      }
      if |buf| > 0x1_0000 {
        assert AssembleServerHello([], old(conn.State().stream)) == FirstServerHello(buf);
        break;
      }
      if |buf| >= 4 {
        var msgLen := 4 + GetU24(buf, 1);
        if msgLen > 0x1_0000 {
          return None;
        }
      }
    }
    if |buf| < 4 || buf[0] != SERVER_HELLO {
      return None;
    }
    var msgLen := 4 + GetU24(buf, 1);
    if msgLen > |buf| {
      return None;
    }
    return Some(buf[..msgLen]);
  }

  /** Whatever it returns is the message the handshake reader would return next, and a ServerHello. */
  lemma {:induction false} AssembleRefinesNext(buf: seq<byte>, s: seq<byte>)
    requires |buf| <= 0x1_0000 && AssembleServerHello(buf, s).Some?
    ensures var next := NextMessage(buf, s);
            next.Message? && AssembleServerHello(buf, s) == Some(next.msg) && next.msg[0] == 0x02
    decreases |s|
  {
    if !HasMessage(buf) {
      var grown := buf + FirstBody(s);
      if |grown| <= 0x1_0000 {
        AssembleRefinesNext(grown, AfterFirst(s));
      }
    }
  }

  /** Every first ServerHello of at most 65536 bytes is returned, for every fragmentation. */
  lemma {:induction false} AssembleComplete(buf: seq<byte>, s: seq<byte>)
    requires var whole := buf + Payload(s);
             HasMessage(whole) && MessageLength(whole) <= 0x1_0000 && whole[0] == 0x02
    ensures var whole := buf + Payload(s);
            AssembleServerHello(buf, s) == Some(whole[..MessageLength(whole)])
    decreases |s|
  {
    var whole := buf + Payload(s);
    if HasMessage(buf) {
      assert whole[..MessageLength(buf)] == buf[..MessageLength(buf)];
    } else {
      assert buf + [] == buf;
      assert StartsWithHandshake(s);
      var grown := buf + FirstBody(s);
      PayloadStep(s);
      assert whole == grown + Payload(AfterFirst(s));
      if |grown| >= 4 {
        assert MessageLength(grown) == MessageLength(whole);
      }
      if |grown| > 0x1_0000 {
        assert whole[..MessageLength(grown)] == grown[..MessageLength(grown)];
      } else {
        AssembleComplete(grown, AfterFirst(s));
      }
    }
  }

  /** With j records behind buf the message is complete, and fewer than four bytes were there before the last of them. */
  predicate ArrivesAtOnce(buf: seq<byte>, s: seq<byte>, length: nat, j: nat)
    requires 1 <= j <= |Fragments(s)|
  {
    |buf| + |Upto(s, j - 1)| < 4 && |buf| + |Upto(s, j)| >= length
  }

  /** The 2^16 guard: a longer message passes only if its header arrives in the record that completes it. */
  predicate PassesGuard(buf: seq<byte>, s: seq<byte>, length: nat) {
    length <= 0x1_0000 || exists j :: 1 <= j <= |Fragments(s)| && ArrivesAtOnce(buf, s, length, j)
  }

  lemma PassesLater(buf: seq<byte>, s: seq<byte>, length: nat)
    requires StartsWithHandshake(s) && |buf| < 4 && length > 0x1_0000
    ensures PassesGuard(buf, s, length) <==>
            |buf + FirstBody(s)| >= length || PassesGuard(buf + FirstBody(s), AfterFirst(s), length)
  {
    var grown, t := buf + FirstBody(s), AfterFirst(s);
    FragmentsCount(s);
    hide Fragments, StartsWithHandshake, AfterFirst;
    UptoStep(buf, s, 1);
    UptoZero(grown, t);
    UptoZero(buf, s);
    forall j | 1 <= j <= |Fragments(t)| ensures ArrivesAtOnce(grown, t, length, j) == ArrivesAtOnce(buf, s, length, j + 1) {
      UptoStep(buf, s, j);
      UptoStep(buf, s, j + 1);
    }
    assert ArrivesAtOnce(buf, s, length, 1) == (|grown| >= length);
    if j :| 1 <= j <= |Fragments(s)| && ArrivesAtOnce(buf, s, length, j) {
      if j > 1 {
        assert ArrivesAtOnce(grown, t, length, j - 1);
      }
    }
    if j :| 1 <= j <= |Fragments(t)| && ArrivesAtOnce(grown, t, length, j) {
      assert ArrivesAtOnce(buf, s, length, j + 1);
    }
  }

  lemma NeverPasses(buf: seq<byte>, s: seq<byte>, length: nat)
    requires |buf| >= 4 && length > 0x1_0000
    ensures !PassesGuard(buf, s, length)
  {
  }

  /** A result exactly when the payload starts with a whole ServerHello that passes the guard, and then that. */
  lemma {:induction false} AssembleFrom(buf: seq<byte>, s: seq<byte>)
    requires !HasMessage(buf) && |buf| <= 0x1_0000 && (|buf| >= 4 ==> MessageLength(buf) <= 0x1_0000)
    ensures var whole := buf + Payload(s);
            AssembleServerHello(buf, s) ==
            if HasMessage(whole) && whole[0] == 0x02 && PassesGuard(buf, s, MessageLength(whole))
            then Some(whole[..MessageLength(whole)]) else None
    decreases |s|
  {
    var whole := buf + Payload(s);
    if |buf| >= 4 {
      assert MessageLength(whole) == MessageLength(buf);
    }
    if HasMessage(whole) && whole[0] == 0x02 && MessageLength(whole) <= 0x1_0000 {
      AssembleComplete(buf, s);
    } else if StartsWithHandshake(s) {
      PayloadStep(s);
      var grown := buf + FirstBody(s);
      assert whole == grown + Payload(AfterFirst(s));
      GrownRead(buf, s);
      if |grown| >= 4 {
        assert MessageLength(whole) == MessageLength(grown);
      }
      if HasMessage(whole) && MessageLength(whole) > 0x1_0000 {
        PassesLater(buf, s, MessageLength(whole));
        if |grown| >= 4 {
          NeverPasses(grown, AfterFirst(s), MessageLength(whole));
        }
      }
      if |grown| > 0x1_0000 || (|grown| >= 4 && MessageLength(grown) > 0x1_0000) {
        if HasMessage(grown) {
          assert whole[..MessageLength(whole)] == grown[..MessageLength(whole)];
        }
      } else if HasMessage(grown) {
        assert AssembleServerHello(grown, AfterFirst(s)) == FirstServerHello(grown);
      } else {
        AssembleFrom(grown, AfterFirst(s));
      }
    } else {
      assert whole == buf;
    }
  }

  /** What one more record does to the loop. */
  lemma GrownRead(buf: seq<byte>, s: seq<byte>)
    requires !HasMessage(buf) && StartsWithHandshake(s)
    ensures var grown := buf + FirstBody(s);
            AssembleServerHello(buf, s) ==
            if |grown| > 0x1_0000 then FirstServerHello(grown)
            else if |grown| >= 4 && MessageLength(grown) > 0x1_0000 then None
            else AssembleServerHello(grown, AfterFirst(s))
  {
  }

  /** The whole reader, for every stream. */
  lemma AssembleExact(s: seq<byte>)
    ensures var whole := Payload(s);
            AssembleServerHello([], s) ==
            if HasMessage(whole) && whole[0] == 0x02 && PassesGuard([], s, MessageLength(whole))
            then Some(whole[..MessageLength(whole)]) else None
  {
    assert [] + Payload(s) == Payload(s);
    AssembleFrom([], s);
  }

  /** One byte a record. */
  function OneByteEach(m: seq<byte>): (frags: seq<seq<byte>>)
    ensures |frags| == |m| && forall i :: 0 <= i < |m| ==> frags[i] == [m[i]]
  {
    seq(|m|, i requires 0 <= i < |m| => [m[i]])
  }

  lemma {:induction false} OneByteEachFlattens(m: seq<byte>)
    ensures Flatten(OneByteEach(m)) == m
  {
    if m != [] {
      OneByteEachFlattens(m[1..]);
      assert OneByteEach(m)[1..] == OneByteEach(m[1..]);
      assert m == [m[0]] + m[1..];
    } else {
      assert OneByteEach(m) == [];
    }
  }

  lemma NoFragments()
    ensures Fragments([]) == []
  {
  }

  lemma MessageStays(buf: seq<byte>, more: seq<byte>)
    ensures HasMessage(buf) ==> HasMessage(buf + more)
  {
    assert |buf| >= 4 ==> MessageLength(buf + more) == MessageLength(buf);
  }

  /** Without a whole ServerHello there is no result, however many records arrive. */
  lemma {:induction false} AssembleNothing(buf: seq<byte>, s: seq<byte>)
    requires !HasMessage(buf + Payload(s)) && |buf + Payload(s)| <= 0x1_0000
    ensures AssembleServerHello(buf, s) == None
    decreases |s|
  {
    MessageStays(buf, Payload(s));
    if StartsWithHandshake(s) {
      PayloadStep(s);
      var grown := buf + FirstBody(s);
      assert buf + Payload(s) == grown + Payload(AfterFirst(s));
      if |grown| >= 4 && MessageLength(grown) > 0x1_0000 {
        assert MessageLength(buf + Payload(s)) == MessageLength(grown);
      } else {
        AssembleNothing(grown, AfterFirst(s));
      }
    }
  }

  /** A ServerHello of k bytes in one-byte records takes all k of them: fewer give no result. */
  lemma ReadsEveryRecord(m: seq<byte>, k: nat)
    requires 4 <= |m| <= 0x1_0000 && m[0] == 0x02 && MessageLength(m) == |m| && k <= |m|
    ensures AssembleServerHello([], Records(OneByteEach(m[..k]))) == if k == |m| then Some(m) else None
  {
    hide Records, AssembleServerHello, Fragments, OneByteEach;
    var frags := OneByteEach(m[..k]);
    NoFragments();
    OneByteEachFlattens(m[..k]);
    FragmentsOfRecords(frags, []);
    assert Records(frags) + [] == Records(frags) && frags + Fragments([]) == frags;
    assert [] + Payload(Records(frags)) == m[..k];
    if k == |m| {
      assert m[..k] == m;
      AssembleComplete([], Records(frags));
    } else {
      assert k >= 4 ==> MessageLength(m[..k]) == |m|;
      AssembleNothing([], Records(frags));
    }
  }

  // ----- ServerHello to ServerHelloDone, keeping the leaf key -----

  /** What a reader has noted: a ServerHello, and the key of the last RSA certificate. */
  datatype Notes = Notes(sawServerHello: bool, pub: Option<RsaKey>)

  function Note(c: Crypto, n: Notes, m: seq<byte>): Notes
    requires |m| >= 4
  {
    if m[0] == SERVER_HELLO then n.(sawServerHello := true)
    else if m[0] == CERTIFICATE && LeafKey(c, m).Some? then n.(pub := LeafKey(c, m))
    else n
  }

  predicate IsDone(m: seq<byte>) {
    |m| >= 4 && m[0] == 0x0e
  }

  predicate HasDone(ms: seq<seq<byte>>) {
    exists m :: m in ms && IsDone(m)
  }

  /** The messages before the first ServerHelloDone. */
  function BeforeDone(ms: seq<seq<byte>>): (b: seq<seq<byte>>)
    ensures b <= ms && !HasDone(b)
    ensures HasDone(ms) ==> |b| < |ms| && IsDone(ms[|b|])
    ensures !HasDone(ms) ==> b == ms
  {
    if ms == [] || IsDone(ms[0]) then []
    else
      var b := BeforeDone(ms[1..]);
      assert HasDone(ms) ==> HasDone(ms[1..]);
      [ms[0]] + b
  }

  function NoteAll(c: Crypto, n: Notes, ms: seq<seq<byte>>): Notes
    requires forall m :: m in ms ==> |m| >= 4
    decreases |ms|
  {
    if ms == [] then n else NoteAll(c, Note(c, n, ms[0]), ms[1..])
  }

  datatype FlightRead = FlightRead(done: bool, pub: Option<RsaKey>, stream: seq<byte>)

  const RUNAWAY_LIMIT: nat := 0x2_0000

  /** The record loop from a buffer without complete messages, with n records still allowed. */
  function ReadFlight(c: Crypto, buf: seq<byte>, s: seq<byte>, notes: Notes, n: nat): FlightRead
    decreases n
  {
    if n == 0 then FlightRead(false, notes.pub, [])
    else
      match FirstRecord(s)
      case Broken => FlightRead(false, notes.pub, [])
      case WrongRecord => FlightRead(false, None, [])
      case Body(body) =>
        var grown := buf + body;
        var ms := Messages(grown);
        var notes' := NoteAll(c, notes, BeforeDone(ms));
        if HasDone(ms) then FlightRead(notes'.sawServerHello && notes'.pub.Some?, notes'.pub, AfterFirst(s))
        else if |Leftover(grown)| > RUNAWAY_LIMIT then FlightRead(false, None, [])
        else ReadFlight(c, Leftover(grown), AfterFirst(s), notes', n - 1)
  }

  /** The inner loop: consumes the complete messages of a buffer, stopping at a ServerHelloDone. */
  method ParseBuffered(c: Crypto, buffered: seq<byte>, notes: Notes) returns (finished: bool, buf: seq<byte>, noted: Notes)
    ensures finished == HasDone(Messages(buffered))
    ensures noted == NoteAll(c, notes, BeforeDone(Messages(buffered)))
    ensures !finished ==> buf == Leftover(buffered)
  {
    hide Messages, Leftover, BeforeDone, HasDone, NoteAll, LeafKey;
    buf := buffered;
    var sawServerHello, pub := notes.sawServerHello, notes.pub;
    while |buf| >= 4
      invariant HasDone(Messages(buffered)) == HasDone(Messages(buf)) && Leftover(buffered) == Leftover(buf)
      invariant NoteAll(c, notes, BeforeDone(Messages(buffered))) ==
                NoteAll(c, Notes(sawServerHello, pub), BeforeDone(Messages(buf)))
      decreases |buf|
    {
      var msgLen := 4 + GetU24(buf, 1);
      if msgLen > |buf| {
        break;
      }
      ParseStep(c, buf, Notes(sawServerHello, pub));
      var msg := buf[..msgLen];
      buf := buf[msgLen..];
      if msg[0] == SERVER_HELLO_DONE {
        return true, buf, Notes(sawServerHello, pub);
      }
      if msg[0] == SERVER_HELLO {
        sawServerHello := true;
      } else if msg[0] == CERTIFICATE {
        var k := LeafKey(c, msg);
        if k.Some? {
          pub := k;
        }
      }
    }
    ParseEnd(c, buf, Notes(sawServerHello, pub));
    return false, buf, Notes(sawServerHello, pub);
  }

  lemma ParseStep(c: Crypto, buf: seq<byte>, n: Notes)
    requires HasMessage(buf)
    ensures var m, rest := buf[..MessageLength(buf)], buf[MessageLength(buf)..];
            && Leftover(buf) == Leftover(rest)
            && if IsDone(m) then HasDone(Messages(buf)) && NoteAll(c, n, BeforeDone(Messages(buf))) == n
               else HasDone(Messages(buf)) == HasDone(Messages(rest)) &&
                    NoteAll(c, n, BeforeDone(Messages(buf))) == NoteAll(c, Note(c, n, m), BeforeDone(Messages(rest)))
  {
    hide Messages, HasDone, BeforeDone, IsDone, LeafKey, Note, Leftover;
    MessagesUnfold(buf);
    BeforeDoneStep(Messages(buf));
  }

  lemma ParseEnd(c: Crypto, buf: seq<byte>, n: Notes)
    requires !HasMessage(buf)
    ensures !HasDone(Messages(buf)) && NoteAll(c, n, BeforeDone(Messages(buf))) == n && Leftover(buf) == buf
  {
  }

  method ReadServerHelloAndCert(c: Crypto, conn: Conn) returns (done: bool, pub: Option<RsaKey>)
    modifies conn`pending
    ensures var r := ReadFlight(c, [], old(conn.State().stream), NOTHING, 16);
            done == r.done && pub == r.pub && (done ==> conn.State().stream == r.stream)
  {
    done, pub := false, None;
    var buf: seq<byte> := [];
    var sawServerHello := false;
    hide ReadFlight, Messages, Leftover, NoteAll, BeforeDone, HasDone, FirstRecord;
    ghost var start := conn.State().stream;
    for iter := 0 to 16
      invariant !done
      invariant ReadFlight(c, [], start, NOTHING, 16) ==
                ReadFlight(c, buf, conn.State().stream, Notes(sawServerHello, pub), 16 - iter)
    {
      ReadFlightUnfolds(c, buf, conn.State().stream, Notes(sawServerHello, pub), 16 - iter);
      var r := ReadHandshakeRecord(conn);
      match r {
        case Broken => return done, pub;
        case WrongRecord => return done, None;
        case Body(body) => buf := buf + body;
      }
      var finished, noted;
      finished, buf, noted := ParseBuffered(c, buf, Notes(sawServerHello, pub));
      sawServerHello, pub := noted.sawServerHello, noted.pub;
      if finished {
        return sawServerHello && pub.Some?, pub;
      }
      if |buf| > RUNAWAY_LIMIT {
        return done, None;
      }
    }
    ReadFlightNothing(c, buf, conn.State().stream, Notes(sawServerHello, pub));
  }

  lemma ReadFlightUnfolds(c: Crypto, buf: seq<byte>, s: seq<byte>, notes: Notes, n: nat)
    requires n > 0
    ensures ReadFlight(c, buf, s, notes, n) ==
            match FirstRecord(s)
            case Broken => FlightRead(false, notes.pub, [])
            case WrongRecord => FlightRead(false, None, [])
            case Body(body) =>
              var grown := buf + body;
              var notes' := NoteAll(c, notes, BeforeDone(Messages(grown)));
              if HasDone(Messages(grown)) then FlightRead(notes'.sawServerHello && notes'.pub.Some?, notes'.pub, AfterFirst(s))
              else if |Leftover(grown)| > RUNAWAY_LIMIT then FlightRead(false, None, [])
              else ReadFlight(c, Leftover(grown), AfterFirst(s), notes', n - 1)
  {
  }

  lemma ReadFlightNothing(c: Crypto, buf: seq<byte>, s: seq<byte>, notes: Notes)
    ensures ReadFlight(c, buf, s, notes, 0) == FlightRead(false, notes.pub, [])
  {
  }

  lemma HasDoneStep(ms: seq<seq<byte>>)
    requires ms != []
    ensures HasDone(ms) == (IsDone(ms[0]) || HasDone(ms[1..]))
  {
  }

  // ----- when it is done, and with which key -----

  const NOTHING: Notes := Notes(false, None)

  predicate SawHello(ms: seq<seq<byte>>) {
    exists m :: m in ms && |m| >= 4 && m[0] == 0x02
  }

  /** The key of the last Certificate message that carries an RSA leaf. */
  function LastKey(c: Crypto, ms: seq<seq<byte>>): Option<RsaKey>
    decreases |ms|
  {
    if ms == [] then None
    else
      var m := ms[|ms| - 1];
      if |m| >= 4 && m[0] == 0x0b && LeafKey(c, m).Some? then LeafKey(c, m)
      else LastKey(c, ms[..|ms| - 1])
  }

  lemma {:induction false} NoteAllConcat(c: Crypto, n: Notes, ms: seq<seq<byte>>, ns: seq<seq<byte>>)
    requires forall m :: m in ms + ns ==> |m| >= 4
    ensures NoteAll(c, n, ms + ns) == NoteAll(c, NoteAll(c, n, ms), ns)
    decreases |ms|
  {
    if ms == [] {
      assert ms + ns == ns;
    } else {
      assert (ms + ns)[1..] == ms[1..] + ns;
      NoteAllConcat(c, Note(c, n, ms[0]), ms[1..], ns);
    }
  }

  /** The running notes say exactly whether a ServerHello was seen and which key came last. */
  lemma {:induction false} NotesMeaning(c: Crypto, ms: seq<seq<byte>>)
    requires forall m :: m in ms ==> |m| >= 4
    ensures NoteAll(c, NOTHING, ms) == Notes(SawHello(ms), LastKey(c, ms))
    decreases |ms|
  {
    if ms != [] {
      var init, last := ms[..|ms| - 1], ms[|ms| - 1];
      assert ms == init + [last];
      NotesMeaning(c, init);
      NoteAllConcat(c, NOTHING, init, [last]);
      assert SawHello(ms) == (SawHello(init) || last[0] == SERVER_HELLO);
    }
  }

  lemma {:induction false} BeforeDoneConcat(ms: seq<seq<byte>>, ns: seq<seq<byte>>)
    ensures HasDone(ms + ns) == (HasDone(ms) || HasDone(ns))
    ensures BeforeDone(ms + ns) == if HasDone(ms) then BeforeDone(ms) else ms + BeforeDone(ns)
    decreases |ms|
  {
    hide HasDone, BeforeDone, IsDone;
    if ms == [] {
      assert ms + ns == ns;
      NothingDone();
    } else {
      assert (ms + ns)[1..] == ms[1..] + ns;
      BeforeDoneConcat(ms[1..], ns);
      BeforeDoneStep(ms);
      BeforeDoneStep(ms + ns);
    }
  }

  lemma NothingDone()
    ensures !HasDone([]) && BeforeDone([]) == []
  {
  }

  lemma BeforeDoneStep(ms: seq<seq<byte>>)
    requires ms != []
    ensures HasDone(ms) == (IsDone(ms[0]) || HasDone(ms[1..]))
    ensures BeforeDone(ms) == if IsDone(ms[0]) then [] else [ms[0]] + BeforeDone(ms[1..])
  {
    hide IsDone;
    HasDoneStep(ms);
  }

  /** Record i, after payload p, completes no ServerHelloDone and leaves at most 2^17 bytes pending. */
  predicate Passes(p: seq<byte>, s: seq<byte>, i: nat)
    requires i <= |Fragments(s)|
  {
    !HasDone(Messages(p + Upto(s, i))) && |Leftover(p + Upto(s, i))| <= 0x2_0000
  }

  /** Record j is the first that completes a ServerHelloDone, and every earlier one passed the guard. */
  predicate DoneAt(p: seq<byte>, s: seq<byte>, j: nat)
    requires j <= |Fragments(s)|
  {
    j >= 1 && HasDone(Messages(p + Upto(s, j))) && forall i :: 1 <= i < j ==> Passes(p, s, i)
  }

  lemma DoneAtStep(p: seq<byte>, s: seq<byte>, j: nat)
    requires 1 <= j <= |Fragments(s)|
    ensures var q := p + FirstBody(s);
            DoneAt(p, s, j) ==
            if j == 1 then HasDone(Messages(q))
            else !HasDone(Messages(q)) && |Leftover(q)| <= RUNAWAY_LIMIT && DoneAt(q, AfterFirst(s), j - 1)
  {
    var q, t := p + FirstBody(s), AfterFirst(s);
    forall i | 1 <= i <= j ensures p + Upto(s, i) == q + Upto(t, i - 1) {
      UptoStep(p, s, i);
    }
    assert q + Upto(t, 0) == q;
    if j > 1 {
      assert Passes(p, s, 1) == (!HasDone(Messages(q)) && |Leftover(q)| <= RUNAWAY_LIMIT);
      forall i | 1 <= i < j - 1 ensures Passes(q, t, i) == Passes(p, s, i + 1) {
      }
      if DoneAt(q, t, j - 1) && Passes(p, s, 1) {
        forall i | 1 <= i < j ensures Passes(p, s, i) {
          if i > 1 {
            assert Passes(q, t, i - 1);
          }
        }
      }
    }
  }

  /** The state of the loop once payload p has been read without a ServerHelloDone. */
  function ReadFlightFrom(c: Crypto, p: seq<byte>, s: seq<byte>, n: nat): FlightRead {
    ReadFlight(c, Leftover(p), s, NoteAll(c, NOTHING, Messages(p)), n)
  }

  function Verdict(c: Crypto, p: seq<byte>): Notes {
    NoteAll(c, NOTHING, BeforeDone(Messages(p)))
  }

  lemma ReadFlightStep(c: Crypto, p: seq<byte>, s: seq<byte>, n: nat)
    requires !HasDone(Messages(p)) && StartsWithHandshake(s) && n > 0
    ensures var q, t := p + FirstBody(s), AfterFirst(s);
            ReadFlightFrom(c, p, s, n) ==
            if HasDone(Messages(q)) then
              FlightRead(Verdict(c, q).sawServerHello && Verdict(c, q).pub.Some?, Verdict(c, q).pub, t)
            else if |Leftover(q)| > RUNAWAY_LIMIT then FlightRead(false, None, [])
            else ReadFlightFrom(c, q, t, n - 1)
  {
    var q, grown := p + FirstBody(s), Leftover(p) + FirstBody(s);
    MessagesContinue(p, FirstBody(s));
    BeforeDoneConcat(Messages(p), Messages(grown));
    NoteAllConcat(c, NOTHING, Messages(p), BeforeDone(Messages(grown)));
  }

  lemma {:induction false} ReadFlightDone(c: Crypto, p: seq<byte>, s: seq<byte>, n: nat, j: nat)
    requires !HasDone(Messages(p)) && j <= |Fragments(s)| && j <= n && DoneAt(p, s, j)
    ensures var r, v := ReadFlightFrom(c, p, s, n), Verdict(c, p + Upto(s, j));
            r.done == (v.sawServerHello && v.pub.Some?) && r.pub == v.pub
    decreases n
  {
    hide Messages, Leftover, HasDone, Upto, Passes, Verdict, ReadFlightFrom, FirstBody, AfterFirst;
    assert j >= 1 && HasDone(Messages(p + Upto(s, j)));
    DoneAtStep(p, s, j);
    ReadFlightStep(c, p, s, n);
    UptoStep(p, s, j);
    var q, t := p + FirstBody(s), AfterFirst(s);
    if j == 1 {
      UptoZero(q, t);
    } else {
      ReadFlightDone(c, q, t, n - 1, j - 1);
    }
  }

  lemma {:induction false} ReadFlightNotDone(c: Crypto, p: seq<byte>, s: seq<byte>, n: nat)
    requires !HasDone(Messages(p))
    requires forall j :: 1 <= j <= n && j <= |Fragments(s)| ==> !DoneAt(p, s, j)
    ensures !ReadFlightFrom(c, p, s, n).done
    decreases n
  {
    if n > 0 && StartsWithHandshake(s) {
      hide Messages, Leftover, HasDone, DoneAt, Verdict, ReadFlight, ReadFlightFrom, FirstBody, AfterFirst, Fragments,
           StartsWithHandshake;
      var q, t := p + FirstBody(s), AfterFirst(s);
      ReadFlightStep(c, p, s, n);
      NotDoneLater(p, s, n);
      if !HasDone(Messages(q)) && |Leftover(q)| <= RUNAWAY_LIMIT {
        ReadFlightNotDone(c, q, t, n - 1);
      }
    }
  }

  lemma FragmentsCount(s: seq<byte>)
    requires StartsWithHandshake(s)
    ensures |Fragments(s)| == |Fragments(AfterFirst(s))| + 1
  {
  }

  lemma NotDoneLater(p: seq<byte>, s: seq<byte>, n: nat)
    requires StartsWithHandshake(s) && n > 0
    requires forall j :: 1 <= j <= n && j <= |Fragments(s)| ==> !DoneAt(p, s, j)
    ensures var q, t := p + FirstBody(s), AfterFirst(s);
            !HasDone(Messages(q)) &&
            (|Leftover(q)| <= RUNAWAY_LIMIT ==> forall j :: 1 <= j <= n - 1 && j <= |Fragments(t)| ==> !DoneAt(q, t, j))
  {
    hide Messages, Leftover, HasDone, DoneAt, FirstBody, AfterFirst, Fragments, StartsWithHandshake;
    var q, t := p + FirstBody(s), AfterFirst(s);
    FragmentsCount(s);
    DoneAtStep(p, s, 1);
    forall j | 1 <= j <= n - 1 && j <= |Fragments(t)| && |Leftover(q)| <= RUNAWAY_LIMIT ensures !DoneAt(q, t, j) {
      DoneAtStep(p, s, j + 1);
    }
  }

  /** Within 16 records, a ServerHelloDone preceded by a ServerHello and an RSA certificate. */
  predicate FlightDone(c: Crypto, s: seq<byte>, j: nat)
    requires j <= |Fragments(s)|
  {
    && 1 <= j <= 16 && DoneAt([], s, j)
    && SawHello(BeforeDone(Messages(Upto(s, j)))) && LastKey(c, BeforeDone(Messages(Upto(s, j)))).Some?
  }

  /**
   The reader is done exactly when some record within the first 16 completes such a flight; the key
   is that of the last RSA certificate among the messages the handshake reader sees before the
   first ServerHelloDone.
   */
  lemma ReadFlightExact(c: Crypto, s: seq<byte>)
    ensures var r := ReadFlight(c, [], s, NOTHING, 16);
            && (r.done <==> exists j :: 0 <= j <= |Fragments(s)| && FlightDone(c, s, j))
            && (r.done ==> HasDone(Messages(Payload(s))) && r.pub == LastKey(c, BeforeDone(Messages(Payload(s)))))
  {
    var r := ReadFlight(c, [], s, NOTHING, 16);
    assert ReadFlightFrom(c, [], s, 16) == r;
    assert !HasDone(Messages([]));
    hide Messages, HasDone, Leftover, ReadFlightFrom, ReadFlight, BeforeDone, LastKey, SawHello, Upto, Passes;
    forall j | 0 <= j <= |Fragments(s)| ensures [] + Upto(s, j) == Upto(s, j) {
    }
    if j :| 1 <= j <= 16 && j <= |Fragments(s)| && DoneAt([], s, j) {
      ReadFlightDone(c, [], s, 16, j);
      NotesMeaning(c, BeforeDone(Messages(Upto(s, j))));
      UptoExtends(s, j);
      if r.done {
        assert FlightDone(c, s, j);
      }
      forall k | 0 <= k <= |Fragments(s)| && FlightDone(c, s, k) ensures r.done {
        DoneAtUnique(s, j, k);
      }
    } else {
      ReadFlightNotDone(c, [], s, 16);
    }
  }

  lemma DoneAtUnique(s: seq<byte>, j: nat, k: nat)
    requires j <= |Fragments(s)| && k <= |Fragments(s)| && DoneAt([], s, j) && DoneAt([], s, k)
    ensures j == k
  {
    assert j < k ==> Passes([], s, j);
    assert k < j ==> Passes([], s, k);
  }

  /** What the first j records complete is a prefix of the messages of the whole payload. */
  lemma UptoExtends(s: seq<byte>, j: nat)
    requires j <= |Fragments(s)| && HasDone(Messages(Upto(s, j)))
    ensures HasDone(Messages(Payload(s))) && BeforeDone(Messages(Payload(s))) == BeforeDone(Messages(Upto(s, j)))
  {
    var rest := Flatten(Fragments(s)[j..]);
    assert Fragments(s) == Fragments(s)[..j] + Fragments(s)[j..];
    FlattenConcat(Fragments(s)[..j], Fragments(s)[j..]);
    MessagesContinue(Upto(s, j), rest);
    BeforeDoneConcat(Messages(Upto(s, j)), Messages(Leftover(Upto(s, j)) + rest));
  }

  // ----- the key of an unfinished flight -----

  /** The first j records pass, and the loop goes no further than looking at the next one. */
  predicate StopsAt(p: seq<byte>, s: seq<byte>, j: nat, n: nat)
    requires j <= |Fragments(s)|
  {
    && j <= n && (forall i :: 1 <= i <= j ==> Passes(p, s, i))
    && (j < n && j < |Fragments(s)| ==> !Passes(p, s, j + 1))
  }

  predicate Stops(s: seq<byte>, j: nat)
    requires j <= |Fragments(s)|
  {
    StopsAt([], s, j, 16)
  }

  /** Where the loop stops is determined. */
  lemma {:induction false} StopsExists(p: seq<byte>, s: seq<byte>, n: nat)
    ensures exists j :: 0 <= j <= |Fragments(s)| && StopsAt(p, s, j, n)
    decreases n
  {
    if n == 0 || !StartsWithHandshake(s) || !Passes(p, s, 1) {
      assert StopsAt(p, s, 0, n);
    } else {
      var q, t := p + FirstBody(s), AfterFirst(s);
      assert |Fragments(s)| == |Fragments(t)| + 1;
      hide Passes, Fragments, FirstBody, AfterFirst, StartsWithHandshake;
      StopsExists(q, t, n - 1);
      var j :| 0 <= j <= |Fragments(t)| && StopsAt(q, t, j, n - 1);
      StopsStep(p, s, j + 1, n);
    }
  }

  lemma StopsStep(p: seq<byte>, s: seq<byte>, j: nat, n: nat)
    requires 1 <= j <= |Fragments(s)| && n > 0
    ensures StopsAt(p, s, j, n) == (Passes(p, s, 1) && StopsAt(p + FirstBody(s), AfterFirst(s), j - 1, n - 1))
  {
    var q, t := p + FirstBody(s), AfterFirst(s);
    forall i | 1 <= i < |Fragments(s)| ensures Passes(p, s, i + 1) == Passes(q, t, i) {
      UptoStep(p, s, i + 1);
    }
    if Passes(p, s, 1) && StopsAt(q, t, j - 1, n - 1) {
      forall i | 1 <= i <= j ensures Passes(p, s, i) {
        if i > 1 {
          assert Passes(q, t, i - 1);
        }
      }
    }
    if StopsAt(p, s, j, n) {
      forall i | 1 <= i <= j - 1 ensures Passes(q, t, i) {
        assert Passes(p, s, i + 1);
      }
    }
  }

  /** The last RSA key of the completed messages; none when a wrong record or the guard ends the loop. */
  function KeyFrom(c: Crypto, p: seq<byte>, s: seq<byte>, j: nat, n: nat): Option<RsaKey>
    requires j <= |Fragments(s)|
  {
    if j < n && j < |Fragments(s)| then
      var ms := Messages(p + Upto(s, j + 1));
      if HasDone(ms) then LastKey(c, BeforeDone(ms)) else None
    else if j < n && FirstRecord(AfterRecords(s, j)) == WrongRecord then None
    else LastKey(c, Messages(p + Upto(s, j)))
  }

  function KeyAt(c: Crypto, s: seq<byte>, j: nat): Option<RsaKey>
    requires j <= |Fragments(s)|
  {
    KeyFrom(c, [], s, j, 16)
  }

  lemma KeyFromStep(c: Crypto, p: seq<byte>, s: seq<byte>, j: nat, n: nat)
    requires 1 <= j <= |Fragments(s)| && n > 0
    ensures KeyFrom(c, p, s, j, n) == KeyFrom(c, p + FirstBody(s), AfterFirst(s), j - 1, n - 1)
  {
    UptoStep(p, s, j);
    if j < |Fragments(s)| {
      UptoStep(p, s, j + 1);
    }
  }

  /** Whichever way the loop ends, done or not, this is the key it returns. */
  lemma {:induction false} ReadFlightKeyFrom(c: Crypto, p: seq<byte>, s: seq<byte>, n: nat, j: nat)
    requires !HasDone(Messages(p)) && j <= |Fragments(s)| && StopsAt(p, s, j, n)
    ensures ReadFlightFrom(c, p, s, n).pub == KeyFrom(c, p, s, j, n)
    decreases n
  {
    hide *;
    if j > 0 {
      FirstRecordPassed(c, p, s, n, j);
      ReadFlightKeyFrom(c, p + FirstBody(s), AfterFirst(s), n - 1, j - 1);
    } else {
      ReadFlightKeyStopped(c, p, s, n);
    }
  }

  /** A loop that stops later moves past its first record and still stops at the same place. */
  lemma FirstRecordPassed(c: Crypto, p: seq<byte>, s: seq<byte>, n: nat, j: nat)
    requires !HasDone(Messages(p)) && 1 <= j <= |Fragments(s)| && StopsAt(p, s, j, n)
    ensures n > 0 && StartsWithHandshake(s) && j - 1 <= |Fragments(AfterFirst(s))|
    ensures var q, t := p + FirstBody(s), AfterFirst(s);
            && !HasDone(Messages(q)) && StopsAt(q, t, j - 1, n - 1)
            && ReadFlightFrom(c, p, s, n) == ReadFlightFrom(c, q, t, n - 1)
            && KeyFrom(c, p, s, j, n) == KeyFrom(c, q, t, j - 1, n - 1)
  {
    assert n > 0 && StartsWithHandshake(s) && |Fragments(s)| == |Fragments(AfterFirst(s))| + 1;
    assert Passes(p, s, 1);
    hide *;
    StopsStep(p, s, j, n);
    FirstPasses(p, s);
    ReadFlightStep(c, p, s, n);
    KeyFromStep(c, p, s, j, n);
  }

  lemma FirstPasses(p: seq<byte>, s: seq<byte>)
    requires |Fragments(s)| >= 1
    ensures var q := p + FirstBody(s);
            Passes(p, s, 1) == (!HasDone(Messages(q)) && |Leftover(q)| <= RUNAWAY_LIMIT)
  {
    UptoStep(p, s, 1);
    UptoZero(p + FirstBody(s), AfterFirst(s));
  }

  lemma ReadFlightKeyStopped(c: Crypto, p: seq<byte>, s: seq<byte>, n: nat)
    requires !HasDone(Messages(p)) && StopsAt(p, s, 0, n)
    ensures ReadFlightFrom(c, p, s, n).pub == KeyFrom(c, p, s, 0, n)
  {
    hide Messages, Leftover, HasDone, BeforeDone, LastKey, NoteAll, Upto, FirstBody;
    UptoZero(p, s);
    NotesMeaning(c, Messages(p));
    BeforeNothingDone(Messages(p));
    if n > 0 && StartsWithHandshake(s) {
      var q := p + FirstBody(s);
      ReadFlightStep(c, p, s, n);
      FirstPasses(p, s);
      UptoStep(p, s, 1);
      UptoZero(q, AfterFirst(s));
      NotesMeaning(c, BeforeDone(Messages(q)));
    }
  }

  lemma BeforeNothingDone(ms: seq<seq<byte>>)
    requires !HasDone(ms)
    ensures BeforeDone(ms) == ms
  {
  }

  lemma ReadFlightKey(c: Crypto, s: seq<byte>, j: nat)
    requires j <= |Fragments(s)| && Stops(s, j)
    ensures ReadFlight(c, [], s, NOTHING, 16).pub == KeyAt(c, s, j)
  {
    ReadFlightKeyFrom(c, [], s, 16, j);
  }
}
