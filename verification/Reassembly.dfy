/**
 Three readers of the server's first flight, and the one meaning they share: the messages of the
 concatenated handshake payload, however it was cut into records and chunks.
 */
module Reassembly {
  import opened Bytes
  import opened Wrappers
  import opened Network
  import opened Primitives
  import opened Hello

  // ----- the meaning: messages of a payload -----

  function MessageLength(buf: seq<byte>): (n: nat)
    requires |buf| >= 4
    ensures n >= 4
  {
    4 + GetU24(buf, 1)
  }

  predicate HasMessage(buf: seq<byte>) {
    |buf| >= 4 && MessageLength(buf) <= |buf|
  }

  function Messages(p: seq<byte>): (ms: seq<seq<byte>>)
    ensures forall m :: m in ms ==> |m| >= 4
    decreases |p|
  {
    if HasMessage(p) then [p[..MessageLength(p)]] + Messages(p[MessageLength(p)..]) else []
  }

  /** What remains of a payload after its last complete message. */
  function Leftover(p: seq<byte>): seq<byte>
    decreases |p|
  {
    if HasMessage(p) then Leftover(p[MessageLength(p)..]) else p
  }

  lemma MessagesUnfold(p: seq<byte>)
    ensures Messages(p) == if HasMessage(p) then [p[..MessageLength(p)]] + Messages(p[MessageLength(p)..]) else []
    ensures Leftover(p) == if HasMessage(p) then Leftover(p[MessageLength(p)..]) else p
  {
  }

  lemma FlattenFirst(m: seq<byte>, ms: seq<seq<byte>>)
    ensures Flatten([m] + ms) == m + Flatten(ms)
  {
    assert ([m] + ms)[1..] == ms;
  }

  lemma {:induction false} MessagesThenLeftover(p: seq<byte>)
    ensures p == Flatten(Messages(p)) + Leftover(p) && !HasMessage(Leftover(p))
    decreases |p|
  {
    hide Messages, Leftover, Flatten;
    MessagesUnfold(p);
    if HasMessage(p) {
      var first, rest := p[..MessageLength(p)], p[MessageLength(p)..];
      MessagesThenLeftover(rest);
      FlattenFirst(first, Messages(rest));
      assert p == first + rest;
      assert first + (Flatten(Messages(rest)) + Leftover(rest)) == (first + Flatten(Messages(rest))) + Leftover(rest);
    } else {
      FlattenNothing(p);
    }
  }

  /** Every message is as long as its header says. */
  predicate Framed(ms: seq<seq<byte>>) {
    forall m :: m in ms ==> |m| >= 4 && MessageLength(m) == |m|
  }

  /** A list of framed messages is recovered from its concatenation. */
  lemma {:induction false} MessagesOfFlatten(ms: seq<seq<byte>>)
    requires Framed(ms)
    ensures Messages(Flatten(ms)) == ms && Leftover(Flatten(ms)) == []
  {
    if ms != [] {
      MessagesOfFlatten(ms[1..]);
      var m, rest, p := ms[0], Flatten(ms[1..]), Flatten(ms);
      assert MessageLength(p) == |m| && p[..|m|] == m && p[|m|..] == rest;
    }
  }

  lemma {:induction false} MessagesContinue(p: seq<byte>, q: seq<byte>)
    ensures Messages(p + q) == Messages(p) + Messages(Leftover(p) + q)
    ensures Leftover(p + q) == Leftover(Leftover(p) + q)
    decreases |p|
  {
    hide Messages, Leftover;
    MessagesUnfold(p);
    if HasMessage(p) {
      var n := MessageLength(p);
      assert MessageLength(p + q) == n && HasMessage(p + q);
      assert (p + q)[..n] == p[..n] && (p + q)[n..] == p[n..] + q;
      hide HasMessage, MessageLength;
      MessagesUnfold(p + q);
      MessagesContinue(p[n..], q);
    }
  }

  // ----- the payload of a byte stream -----

  predicate StartsWithHandshake(s: seq<byte>) {
    |s| >= 5 && s[0] == 0x16 && GetU16(s, 3) >= 1 && 5 + GetU16(s, 3) <= |s|
  }

  function FirstBody(s: seq<byte>): seq<byte>
    requires StartsWithHandshake(s)
  {
    s[5..5 + GetU16(s, 3)]
  }

  function AfterFirst(s: seq<byte>): seq<byte>
    requires StartsWithHandshake(s)
  {
    s[5 + GetU16(s, 3)..]
  }

  /** The bodies of the complete, non-empty handshake records a stream starts with. */
  function Fragments(s: seq<byte>): seq<seq<byte>>
    decreases |s|
  {
    if StartsWithHandshake(s) then [FirstBody(s)] + Fragments(AfterFirst(s)) else []
  }

  function Payload(s: seq<byte>): seq<byte> {
    Flatten(Fragments(s))
  }

  lemma PayloadStep(s: seq<byte>)
    requires StartsWithHandshake(s)
    ensures Payload(s) == FirstBody(s) + Payload(AfterFirst(s))
  {
    assert Fragments(s)[1..] == Fragments(AfterFirst(s));
  }

  // ----- the first records of a stream -----

  /** The payload of the first j records. */
  function Upto(s: seq<byte>, j: nat): seq<byte>
    requires j <= |Fragments(s)|
  {
    Flatten(Fragments(s)[..j])
  }

  lemma UptoZero(p: seq<byte>, s: seq<byte>)
    ensures p + Upto(s, 0) == p
  {
  }

  lemma UptoStep(p: seq<byte>, s: seq<byte>, j: nat)
    requires 1 <= j <= |Fragments(s)|
    ensures p + Upto(s, j) == (p + FirstBody(s)) + Upto(AfterFirst(s), j - 1)
  {
    assert Fragments(s)[..j][1..] == Fragments(AfterFirst(s))[..j - 1];
  }

  /** The stream after the first j records. */
  function AfterRecords(s: seq<byte>, j: nat): seq<byte>
    requires j <= |Fragments(s)|
    decreases j
  {
    if j == 0 then s else AfterRecords(AfterFirst(s), j - 1)
  }

  predicate Splits(frags: seq<seq<byte>>) {
    forall f :: f in frags ==> 1 <= |f| < 0x1_0000
  }

  function Records(frags: seq<seq<byte>>): seq<byte> {
    if frags == [] then [] else WrapRecord(0x16, frags[0]) + Records(frags[1..])
  }

  lemma RecordStart(f: seq<byte>, tail: seq<byte>)
    requires 1 <= |f| < 0x1_0000
    ensures var s := WrapRecord(HANDSHAKE_RECORD, f) + tail;
            StartsWithHandshake(s) && FirstBody(s) == f && AfterFirst(s) == tail
  {
    var s := WrapRecord(HANDSHAKE_RECORD, f) + tail;
    assert GetU16(s, 3) == |f|;
  }

  lemma FragmentsStep(f: seq<byte>, tail: seq<byte>)
    requires 1 <= |f| < 0x1_0000
    ensures Fragments(WrapRecord(HANDSHAKE_RECORD, f) + tail) == [f] + Fragments(tail)
  {
    hide WrapRecord, StartsWithHandshake, FirstBody, AfterFirst;
    RecordStart(f, tail);
  }

  lemma RecordsCons(frags: seq<seq<byte>>, tail: seq<byte>)
    requires frags != []
    ensures Records(frags) + tail == WrapRecord(HANDSHAKE_RECORD, frags[0]) + (Records(frags[1..]) + tail)
  {
    hide WrapRecord;
  }

  /** Every split into non-empty records has the same payload. */
  lemma {:induction false} FragmentsOfRecords(frags: seq<seq<byte>>, tail: seq<byte>)
    requires Splits(frags)
    ensures Fragments(Records(frags) + tail) == frags + Fragments(tail)
  {
    hide WrapRecord, Fragments;
    if frags == [] {
      assert Records(frags) + tail == tail;
    } else {
      hide Records;
      FragmentsOfRecords(frags[1..], tail);
      FragmentsStep(frags[0], Records(frags[1..]) + tail);
      RecordsCons(frags, tail);
      assert frags + Fragments(tail) == [frags[0]] + (frags[1..] + Fragments(tail));
    }
  }

  // ----- reading one record -----

  datatype RecordRead = Body(body: seq<byte>) | WrongRecord | Broken

  /** What every reader makes of the next record: a non-empty handshake body, another record, or a failed read. */
  function FirstRecord(s: seq<byte>): (r: RecordRead)
    ensures r.Body? <==> StartsWithHandshake(s)
    ensures r.Body? ==> r.body == FirstBody(s) && r.body != [] && |AfterFirst(s)| < |s|
  {
    if |s| < 5 then Broken
    else if s[0] != HANDSHAKE_RECORD || GetU16(s, 3) < 1 then WrongRecord
    else if |s| < 5 + GetU16(s, 3) then Broken
    else Body(FirstBody(s))
  }

  method ReadHandshakeRecord(conn: Conn) returns (r: RecordRead)
    modifies conn`pending
    ensures r == FirstRecord(old(conn.State().stream))
    ensures r.Body? ==> conn.State().stream == AfterFirst(old(conn.State().stream))
  {
    var header := ReadRecordHeader(conn);
    if header.None? {
      return Broken;
    }
    var h := header.value;
    if h.contentType != HANDSHAKE_RECORD || h.length < 1 || h.length > 0x1_0000 {
      return WrongRecord;
    }
    var payload := ReadPayload(conn, h.length);
    if payload.None? {
      return Broken;
    }
    return Body(payload.value);
  }

  // ----- the handshake reader -----

  const BUFFER_LIMIT: nat := 0x4_0000

  datatype HsError = NotHandshake | ReadFailed

  datatype Outcome = Message(msg: seq<byte>, buf: seq<byte>, stream: seq<byte>) | Failure(error: HsError)

  /** What one call returns and leaves behind, for a buffer and a stream. */
  function NextMessage(buf: seq<byte>, s: seq<byte>): (o: Outcome)
    ensures o.Message? ==> |o.msg| >= 4 && |o.buf| + |o.stream| < |buf| + |s|
    decreases |s|
  {
    if HasMessage(buf) then Message(buf[..MessageLength(buf)], buf[MessageLength(buf)..], s)
    else
      match FirstRecord(s)
      case Broken => Failure(ReadFailed)
      case WrongRecord => Failure(NotHandshake)
      case Body(body) =>
        if |buf + body| > BUFFER_LIMIT then Failure(NotHandshake) else NextMessage(buf + body, AfterFirst(s))
  }

  class HsReader {
    const conn: Conn
    var buf: seq<byte>

    constructor (conn: Conn)
      ensures this.conn == conn && buf == []
    {
      this.conn := conn;
      buf := [];
    }

    method Next() returns (result: Result)
      modifies this`buf, conn`pending
      ensures match NextMessage(old(buf), old(conn.State().stream))
              case Message(msg, rest, stream) =>
                result == Got(msg[0], msg) && buf == rest && conn.State() == Link(old(conn.sent), stream)
              case Failure(error) => result == Failed(error)
    {
      while true
        invariant conn.sent == old(conn.sent)
        invariant NextMessage(old(buf), old(conn.State().stream)) == NextMessage(buf, conn.State().stream)
        decreases |conn.State().stream|
      {
        if |buf| >= 4 {
          var msgLen := 4 + GetU24(buf, 1);
          if msgLen <= |buf| {
            var msg := buf[..msgLen];
            buf := buf[msgLen..];
            return Got(msg[0], msg);
          }
        }
        var r := ReadHandshakeRecord(conn);
        match r {
          case Broken => return Failed(ReadFailed);
          case WrongRecord => return Failed(NotHandshake);
          case Body(body) => buf := buf + body;
        }
        if |buf| > BUFFER_LIMIT {
          return Failed(NotHandshake);
        }
      }
    }
  }

  datatype Result = Got(msgType: byte, msg: seq<byte>) | Failed(error: HsError)

  /** The longest message no split can make the reader refuse. */
  const MAX_MESSAGE: nat := 196610

  /**
   One call is exact: a returned message is the first one of buffer and payload, and what is left
   loses and repeats nothing; every message of at most MAX_MESSAGE bytes is returned.
   */
  lemma {:induction false} NextMeaning(buf: seq<byte>, s: seq<byte>)
    ensures var whole := buf + Payload(s);
            match NextMessage(buf, s)
            case Message(msg, buf', s') =>
              HasMessage(whole) && msg == whole[..MessageLength(whole)] &&
              buf' + Payload(s') == whole[MessageLength(whole)..]
            case Failure(_) => HasMessage(whole) ==> MessageLength(whole) > MAX_MESSAGE
    decreases |s|
  {
    var whole := buf + Payload(s);
    if HasMessage(buf) {
      var n := MessageLength(buf);
      assert MessageLength(whole) == n && whole[..n] == buf[..n] && whole[n..] == buf[n..] + Payload(s);
    } else if StartsWithHandshake(s) {
      var grown := buf + FirstBody(s);
      PayloadStep(s);
      assert whole == grown + Payload(AfterFirst(s));
      if |buf| >= 4 {
        assert MessageLength(whole) == MessageLength(buf) > |buf|;
      }
      if |grown| <= BUFFER_LIMIT {
        NextMeaning(grown, AfterFirst(s));
      }
    } else {
      assert whole == buf;
    }
  }

  datatype Taken = Taken(msgs: seq<seq<byte>>, buf: seq<byte>, stream: seq<byte>)

  /** k successive calls; None once one of them fails. */
  function TakeMessages(buf: seq<byte>, s: seq<byte>, k: nat): Option<Taken>
    decreases k
  {
    if k == 0 then Some(Taken([], buf, s))
    else
      match NextMessage(buf, s)
      case Failure(_) => None
      case Message(msg, buf', s') =>
        match TakeMessages(buf', s', k - 1)
        case None => None
        case Some(t) => Some(t.(msgs := [msg] + t.msgs))
  }

  predicate Bounded(ms: seq<seq<byte>>) {
    forall m :: m in ms ==> |m| <= MAX_MESSAGE
  }

  /** Successive calls return exactly the messages of the payload, in order. */
  lemma {:induction false} TakeMeaning(buf: seq<byte>, s: seq<byte>, k: nat)
    requires k <= |Messages(buf + Payload(s))| && Bounded(Messages(buf + Payload(s))[..k])
    ensures var whole, t := buf + Payload(s), TakeMessages(buf, s, k);
            t.Some? && t.value.msgs == Messages(whole)[..k] &&
            whole == Flatten(t.value.msgs) + (t.value.buf + Payload(t.value.stream))
    decreases k
  {
    hide Messages, NextMessage, Payload, HasMessage, MessageLength, Flatten, GetU24;
    if k > 0 {
      var whole := buf + Payload(s);
      FirstMessage(whole);
      assert Messages(whole)[0] in Messages(whole)[..k];
      NextSplits(buf, s);
      var next := NextMessage(buf, s);
      var rest := next.buf + Payload(next.stream);
      assert Messages(whole)[..k] == [next.msg] + Messages(rest)[..k - 1];
      TakeMeaning(next.buf, next.stream, k - 1);
      var t := TakeMessages(next.buf, next.stream, k - 1).value;
      TakeAppend(next.msg, t.msgs, t.buf + Payload(t.stream), rest, whole);
    } else {
      FlattenNothing(buf + Payload(s));
    }
  }

  lemma FirstMessage(p: seq<byte>)
    requires Messages(p) != []
    ensures HasMessage(p) && Messages(p)[0] == p[..MessageLength(p)] && |Messages(p)[0]| == MessageLength(p)
  {
  }

  lemma NextSplits(buf: seq<byte>, s: seq<byte>)
    requires var whole := buf + Payload(s); HasMessage(whole) && MessageLength(whole) <= MAX_MESSAGE
    ensures var whole, next := buf + Payload(s), NextMessage(buf, s);
            && next.Message?
            && Messages(whole) == [next.msg] + Messages(next.buf + Payload(next.stream))
            && whole == next.msg + (next.buf + Payload(next.stream))
  {
    NextMeaning(buf, s);
  }

  lemma FlattenNothing(p: seq<byte>)
    ensures Flatten([]) + p == p
  {
  }

  lemma TakeAppend(first: seq<byte>, msgs: seq<seq<byte>>, left: seq<byte>, rest: seq<byte>, whole: seq<byte>)
    requires whole == first + rest && rest == Flatten(msgs) + left
    ensures whole == Flatten([first] + msgs) + left
  {
    assert ([first] + msgs)[1..] == msgs;
  }

  /** Fragmentation independence: every split of a payload into records yields the same messages. */
  lemma FragmentationIndependence(frags: seq<seq<byte>>, payload: seq<byte>)
    requires Splits(frags) && Flatten(frags) == payload
    requires Bounded(Messages(payload))
    ensures var t := TakeMessages([], Records(frags), |Messages(payload)|);
            t.Some? && t.value.msgs == Messages(payload) && t.value.buf + Payload(t.value.stream) == Leftover(payload)
  {
    FragmentsOfRecords(frags, []);
    assert Records(frags) + [] == Records(frags) && frags + Fragments([]) == frags;
    assert [] + Payload(Records(frags)) == payload;
    assert Messages(payload)[..|Messages(payload)|] == Messages(payload);
    TakeMeaning([], Records(frags), |Messages(payload)|);
    var t := TakeMessages([], Records(frags), |Messages(payload)|).value;
    assert t.msgs == Messages(payload);
    MessagesThenLeftover(payload);
    assert payload == Flatten(t.msgs) + (t.buf + Payload(t.stream));
    assert (t.buf + Payload(t.stream)) == payload[|Flatten(t.msgs)|..] == Leftover(payload);
  }

  // ----- exactly when a run of calls succeeds -----

  /** With j records buffered behind buf position `to` is reached, at most 2^18 bytes past position `from`. */
  predicate ReachedBy(buf: seq<byte>, s: seq<byte>, from: nat, to: nat, j: nat)
    requires j <= |Fragments(s)|
  {
    |buf| + |Upto(s, j)| >= to && (j > 0 ==> |buf| + |Upto(s, j)| - from <= 0x4_0000)
  }

  predicate Reached(buf: seq<byte>, s: seq<byte>, from: nat, to: nat) {
    exists j :: 0 <= j <= |Fragments(s)| && ReachedBy(buf, s, from, to, j)
  }

  /** One call succeeds exactly when some record completes the first message within the buffer limit. */
  lemma {:induction false} NextExact(buf: seq<byte>, s: seq<byte>)
    ensures var whole := buf + Payload(s);
            NextMessage(buf, s).Message? <==> HasMessage(whole) && Reached(buf, s, 0, MessageLength(whole))
    decreases |s|
  {
    var whole := buf + Payload(s);
    if HasMessage(buf) {
      assert MessageLength(whole) == MessageLength(buf);
      assert ReachedBy(buf, s, 0, MessageLength(whole), 0);
    } else if StartsWithHandshake(s) {
      var grown, t := buf + FirstBody(s), AfterFirst(s);
      PayloadStep(s);
      assert whole == grown + Payload(t);
      if |grown| <= BUFFER_LIMIT {
        NextExact(grown, t);
      }
      if HasMessage(whole) {
        var n := MessageLength(whole);
        assert |buf| < n by {
          if |buf| >= 4 {
            assert MessageLength(buf) == n;
          }
        }
        hide HasMessage, MessageLength, NextMessage, Payload;
        ReachedFirst(buf, s, n);
      }
    } else {
      assert whole == buf;
    }
  }

  /** Reaching a position past the buffer takes the first record, which must fit. */
  lemma ReachedFirst(buf: seq<byte>, s: seq<byte>, to: nat)
    requires StartsWithHandshake(s) && |buf| < to
    ensures Reached(buf, s, 0, to) <==>
            |buf + FirstBody(s)| <= BUFFER_LIMIT && Reached(buf + FirstBody(s), AfterFirst(s), 0, to)
  {
    var grown, t := buf + FirstBody(s), AfterFirst(s);
    assert |Fragments(s)| == |Fragments(t)| + 1;
    forall j | 1 <= j <= |Fragments(s)| ensures |buf| + |Upto(s, j)| == |grown| + |Upto(t, j - 1)| {
      UptoStep(buf, s, j);
    }
    if j :| 0 <= j <= |Fragments(s)| && ReachedBy(buf, s, 0, to, j) {
      assert j > 0;
      assert ReachedBy(grown, t, 0, to, j - 1);
    }
    if |grown| <= BUFFER_LIMIT {
      if i :| 0 <= i <= |Fragments(t)| && ReachedBy(grown, t, 0, to, i) {
        assert ReachedBy(buf, s, 0, to, i + 1);
      }
    }
  }

  /** Where a call leaves the stream: after j records, which fit the buffer. */
  lemma {:induction false} NextAt(buf: seq<byte>, s: seq<byte>) returns (j: nat)
    requires NextMessage(buf, s).Message?
    ensures var next := NextMessage(buf, s);
            && j <= |Fragments(s)| && next.stream == AfterRecords(s, j)
            && |next.msg| + |next.buf| == |buf| + |Upto(s, j)|
            && (j > 0 ==> |buf| + |Upto(s, j)| <= BUFFER_LIMIT)
    decreases |s|
  {
    if HasMessage(buf) {
      j := 0;
    } else {
      var i := NextAt(buf + FirstBody(s), AfterFirst(s));
      j := i + 1;
      UptoStep(buf, s, j);
    }
  }

  lemma {:induction false} UptoLater(s: seq<byte>, j: nat, i: nat)
    requires j + i <= |Fragments(s)|
    ensures |Fragments(AfterRecords(s, j))| == |Fragments(s)| - j
    ensures |Upto(s, j + i)| == |Upto(s, j)| + |Upto(AfterRecords(s, j), i)|
    decreases j
  {
    if j > 0 {
      UptoLater(AfterFirst(s), j - 1, i);
      UptoStep([], s, j);
      UptoStep([], s, j + i);
    }
  }

  /** Counting records from the j-th on, with m bytes consumed, reaches the same positions. */
  lemma ReachedAfter(buf: seq<byte>, s: seq<byte>, from: nat, to: nat, rest: seq<byte>, j: nat, m: nat)
    requires j <= |Fragments(s)| && m <= from && m <= to && m + |rest| == |buf| + |Upto(s, j)|
    requires j > 0 ==> |buf| + |Upto(s, j)| <= BUFFER_LIMIT
    ensures Reached(rest, AfterRecords(s, j), from - m, to - m) ==> Reached(buf, s, from, to)
    ensures Reached(buf, s, from, to) ==> Reached(rest, AfterRecords(s, j), from - m, to - m)
  {
    hide Upto, AfterRecords, Fragments;
    var later, f, t := AfterRecords(s, j), from - m, to - m;
    UptoLater(s, j, 0);
    if i :| 0 <= i <= |Fragments(later)| && ReachedBy(rest, later, f, t, i) {
      UptoLater(s, j, i);
      assert ReachedBy(buf, s, from, to, j + i);
    }
    if i :| 0 <= i <= |Fragments(s)| && ReachedBy(buf, s, from, to, i) {
      if i > j {
        UptoLater(s, j, i - j);
        assert ReachedBy(rest, later, f, t, i - j);
      } else {
        UptoLater(s, i, j - i);
        assert ReachedBy(rest, later, f, t, 0);
      }
    }
  }

  /** The later messages are reached from what a call leaves behind exactly when they were before it. */
  lemma ReachedLater(buf: seq<byte>, s: seq<byte>, from: nat, to: nat)
    requires NextMessage(buf, s).Message? && |NextMessage(buf, s).msg| <= from && |NextMessage(buf, s).msg| <= to
    ensures var next := NextMessage(buf, s);
            Reached(next.buf, next.stream, from - |next.msg|, to - |next.msg|) <==> Reached(buf, s, from, to)
  {
    hide *;
    var next := NextMessage(buf, s);
    var j := NextAt(buf, s);
    ReachedAfter(buf, s, from, to, next.buf, j, |next.msg|);
  }

  /** Where message i of a list starts. */
  function Start(ms: seq<seq<byte>>, i: nat): nat
    requires i <= |ms|
  {
    |Flatten(ms[..i])|
  }

  /** Each of the first k messages is completed by a record that ends at most 2^18 bytes after its start. */
  predicate AllReached(buf: seq<byte>, s: seq<byte>, ms: seq<seq<byte>>, k: nat)
    requires k <= |ms|
  {
    forall i :: 0 <= i < k ==> Reached(buf, s, Start(ms, i), Start(ms, i + 1))
  }

  /** k successive calls succeed exactly when the payload has k messages that are all reached. */
  lemma {:induction false} TakeExact(buf: seq<byte>, s: seq<byte>, k: nat)
    ensures var ms := Messages(buf + Payload(s));
            TakeMessages(buf, s, k).Some? <==> k <= |ms| && AllReached(buf, s, ms, k)
    decreases k
  {
    hide *;
    var ms, next := Messages(buf + Payload(s)), NextMessage(buf, s);
    if k == 0 {
      TakeNothing(buf, s, ms);
    } else {
      TakeStep(buf, s, k);
      NextFirst(buf, s);
      if next.Message? {
        TakeExact(next.buf, next.stream, k - 1);
      }
      if k <= |ms| {
        AllReachedStep(buf, s, ms, k);
      }
    }
  }

  lemma TakeNothing(buf: seq<byte>, s: seq<byte>, ms: seq<seq<byte>>)
    ensures TakeMessages(buf, s, 0).Some? && AllReached(buf, s, ms, 0)
  {
  }

  lemma TakeStep(buf: seq<byte>, s: seq<byte>, k: nat)
    requires k > 0
    ensures var next := NextMessage(buf, s);
            TakeMessages(buf, s, k).Some? <==> next.Message? && TakeMessages(next.buf, next.stream, k - 1).Some?
  {
  }

  /** A call returns the first message exactly when there is one and it is reached. */
  lemma NextFirst(buf: seq<byte>, s: seq<byte>)
    ensures var ms, next := Messages(buf + Payload(s)), NextMessage(buf, s);
            && (next.Message? <==> ms != [] && Reached(buf, s, 0, |ms[0]|))
            && (next.Message? ==> ms[0] == next.msg && ms[1..] == Messages(next.buf + Payload(next.stream)))
  {
    hide NextMessage, Payload, Reached;
    NextExact(buf, s);
    NextMeaning(buf, s);
  }

  lemma AllReachedStep(buf: seq<byte>, s: seq<byte>, ms: seq<seq<byte>>, k: nat)
    requires 1 <= k <= |ms| && (NextMessage(buf, s).Message? ==> NextMessage(buf, s).msg == ms[0])
    ensures AllReached(buf, s, ms, k) ==> Reached(buf, s, 0, |ms[0]|)
    ensures var next := NextMessage(buf, s);
            next.Message? && Reached(buf, s, 0, |ms[0]|) ==>
              (AllReached(buf, s, ms, k) <==> AllReached(next.buf, next.stream, ms[1..], k - 1))
  {
    hide NextMessage, Reached, Start;
    StartSteps(ms);
    var next, rest := NextMessage(buf, s), ms[1..];
    assert AllReached(buf, s, ms, k) ==> Reached(buf, s, Start(ms, 0), Start(ms, 0 + 1));
    if next.Message? {
      forall i | 0 <= i < k - 1
        ensures Reached(next.buf, next.stream, Start(rest, i), Start(rest, i + 1)) <==>
                Reached(buf, s, Start(ms, i + 1), Start(ms, i + 2))
      {
        ReachedLater(buf, s, Start(ms, i + 1), Start(ms, i + 2));
      }
      if Reached(buf, s, 0, |ms[0]|) && AllReached(next.buf, next.stream, rest, k - 1) {
        forall i | 0 <= i < k ensures Reached(buf, s, Start(ms, i), Start(ms, i + 1)) {
          assert i > 0 ==> Reached(next.buf, next.stream, Start(rest, i - 1), Start(rest, i - 1 + 1));
        }
      }
      if AllReached(buf, s, ms, k) {
        forall i | 0 <= i < k - 1 ensures Reached(next.buf, next.stream, Start(rest, i), Start(rest, i + 1)) {
          assert Reached(buf, s, Start(ms, i + 1), Start(ms, i + 1 + 1));
        }
      }
    }
  }

  lemma StartSteps(ms: seq<seq<byte>>)
    requires ms != []
    ensures Start(ms, 0) == 0 && Start(ms, 1) == |ms[0]|
    ensures forall i :: 1 <= i <= |ms| ==> Start(ms, i) == |ms[0]| + Start(ms[1..], i - 1)
  {
    forall i | 1 <= i <= |ms| ensures Start(ms, i) == |ms[0]| + Start(ms[1..], i - 1) {
      assert ms[..i][1..] == ms[1..][..i - 1];
    }
    assert Flatten(ms[1..][..0]) == [];
  }

  // ----- the bound is tight -----

  lemma NextAbsorbs(buf: seq<byte>, f: seq<byte>, tail: seq<byte>)
    requires !HasMessage(buf) && 1 <= |f| < 0x1_0000
    ensures NextMessage(buf, WrapRecord(HANDSHAKE_RECORD, f) + tail) ==
            if |buf + f| > BUFFER_LIMIT then Failure(NotHandshake) else NextMessage(buf + f, tail)
  {
    RecordStart(f, tail);
  }

  /** A split of a message one byte longer that ends in a full record. */
  function LateSplit(m: seq<byte>): seq<seq<byte>>
    requires |m| == MAX_MESSAGE + 1
  {
    [m[..65535], m[65535..131070], m[131070..196605], m[196605..196610], m[196610..] + Fill(0, 65534)]
  }

  /** Every message of MAX_MESSAGE + 1 bytes is refused under that split. */
  lemma MaxMessageIsTight(m: seq<byte>)
    requires |m| == MAX_MESSAGE + 1 && MessageLength(m) == |m|
    ensures Splits(LateSplit(m)) && m <= Flatten(LateSplit(m))
    ensures NextMessage([], Records(LateSplit(m))) == Failure(NotHandshake)
  {
    hide WrapRecord, NextMessage;
    var frags := LateSplit(m);
    assert Records(frags[5..]) == [];
    forall i | 0 <= i < 5
      ensures Records(frags[i..]) == WrapRecord(HANDSHAKE_RECORD, frags[i]) + Records(frags[i + 1..])
      ensures Flatten(frags[i..]) == frags[i] + Flatten(frags[i + 1..])
    {
      assert frags[i..][1..] == frags[i + 1..];
    }
    assert frags[0..] == frags;
    assert [] + frags[0] == m[..65535] && m[..65535] + frags[1] == m[..131070]
        && m[..131070] + frags[2] == m[..196605] && m[..196605] + frags[3] == m[..196610];
    assert m <= Flatten(frags) by {
      assert m == m[..196610] + m[196610..];
      assert Flatten(frags) == frags[0] + (frags[1] + (frags[2] + (frags[3] + frags[4])));
    }
    NextAbsorbs([], frags[0], Records(frags[1..]));
    NextAbsorbs(m[..65535], frags[1], Records(frags[2..]));
    NextAbsorbs(m[..131070], frags[2], Records(frags[3..]));
    NextAbsorbs(m[..196605], frags[3], Records(frags[4..]));
    NextAbsorbs(m[..196610], frags[4], Records(frags[5..]));
  }
}
