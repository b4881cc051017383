/**
 The network under every probe: an arbitrary peer that answers what has been written so far
 with bytes cut into arbitrary chunks.
 */
module Network {
  import opened Bytes
  import opened Wrappers

  const HANDSHAKE_RECORD: byte := 0x16
  const ALERT_RECORD: byte := 0x15
  const CHANGE_CIPHER_SPEC_RECORD: byte := 0x14
  const APPLICATION_DATA_RECORD: byte := 0x17
  const TLS12: uint16 := 0x0303

  /** What a read reports once no more bytes arrive. */
  datatype Ending = TimedOut | ConnectionReset | ConnectionClosed | OtherError

  /**
   A peer is any function of the records written to it: the chunks it then sends (one chunk is
   what one read can see at most), whether it takes the last write, and how reads fail at the end.
   */
  datatype Peer = Peer(
    reply: seq<seq<byte>> -> seq<seq<byte>>,
    accepts: seq<seq<byte>> -> bool,
    ending: seq<seq<byte>> -> Ending)

  /** The abstract value of a connection: the records written and the bytes still to be read. */
  datatype Link = Link(sent: seq<seq<byte>>, stream: seq<byte>)

  function Opened(peer: Peer): Link {
    Link([], Flatten(peer.reply([])))
  }

  function Written(peer: Peer, link: Link, data: seq<byte>): Option<Link> {
    var sent := link.sent + [data];
    if peer.accepts(sent) then Some(Link(sent, link.stream + Flatten(peer.reply(sent)))) else None
  }

  class Conn {
    const peer: Peer
    var sent: seq<seq<byte>>
    var pending: seq<seq<byte>>

    ghost function State(): Link
      reads this
    {
      Link(sent, Flatten(pending))
    }

    constructor (peer: Peer)
      ensures this.peer == peer && State() == Opened(peer)
    {
      this.peer := peer;
      sent := [];
      pending := peer.reply([]);
    }

    method Write(data: seq<byte>) returns (ok: bool)
      modifies this
      ensures ok == Written(peer, old(State()), data).Some?
      ensures State() == if ok then Written(peer, old(State()), data).value else old(State())
    {
      ok := peer.accepts(sent + [data]);
      if ok {
        FlattenConcat(pending, peer.reply(sent + [data]));
        sent := sent + [data];
        pending := pending + peer.reply(sent);
      }
    }

    /** One Read into buf[from..]: some bytes of the next chunk, or an error when none is left. */
    method Read(buf: array<byte>, from: nat) returns (n: nat, ok: bool)
      requires from < buf.Length
      modifies this`pending, buf
      ensures from + n <= buf.Length
      ensures buf[..from] == old(buf[..from])
      ensures old(State().stream) == buf[from..from + n] + State().stream
      ensures n == 0 ==> if ok then |pending| < |old(pending)| else pending == old(pending) == []
      ensures n > 0 ==> ok
      ensures !ok ==> State().stream == []
    {
      if pending == [] {
        return 0, false;
      }
      var chunk, rest := pending[0], pending[1..];
      n := if |chunk| <= buf.Length - from then |chunk| else buf.Length - from;
      forall i | 0 <= i < n {
        buf[from + i] := chunk[i];
      }
      assert buf[from..from + n] == chunk[..n];
      assert chunk == chunk[..n] + chunk[n..];
      pending := if n == |chunk| then rest else [chunk[n..]] + rest;
      ok := true;
    }
  }

  lemma Reassociate(a: seq<byte>, b: seq<byte>, c: seq<byte>)
    ensures (a + b) + c == a + (b + c)
  {
  }

  /** Reads exactly buf.Length bytes or fails; how the bytes were chunked makes no difference. */
  method ReadFull(conn: Conn, buf: array<byte>) returns (total: nat, ok: bool)
    modifies conn`pending, buf
    ensures ok == (buf.Length <= |old(conn.State().stream)|)
    ensures ok ==> total == buf.Length
    ensures total <= buf.Length && old(conn.State().stream) == buf[..total] + conn.State().stream
    ensures !ok ==> conn.State().stream == []
  {
    hide Flatten;
    total := 0;
    assert buf[..0] == [] && [] + conn.State().stream == conn.State().stream;
    while total < buf.Length
      invariant total <= buf.Length
      invariant old(conn.State().stream) == buf[..total] + conn.State().stream
      decreases buf.Length - total, |conn.pending|
    {
      ghost var got := buf[..total];
      var n, more := conn.Read(buf, total);
      assert buf[..total + n] == got + buf[total..total + n];
      Reassociate(got, buf[total..total + n], conn.State().stream);
      if n > 0 {
        total := total + n;
      }
      if !more {
        return total, false;
      }
    }
    return total, true;
  }

  datatype RecordHeader = RecordHeader(contentType: byte, version: uint16, length: nat)

  function HeaderAt(s: seq<byte>): RecordHeader
    requires |s| >= 5
  {
    RecordHeader(s[0], GetU16(s, 1), GetU16(s, 3))
  }

  method ReadRecordHeader(conn: Conn) returns (h: Option<RecordHeader>)
    modifies conn`pending
    ensures h.Some? == (|old(conn.State().stream)| >= 5)
    ensures h.Some? ==> h.value == HeaderAt(old(conn.State().stream))
    ensures h.Some? ==> conn.State().stream == old(conn.State().stream)[5..]
    ensures h.None? ==> conn.State().stream == []
  {
    var header := new byte[5];
    var _, ok := ReadFull(conn, header);
    if !ok {
      return None;
    }
    assert header[..] == header[..5];
    return Some(RecordHeader(header[0], header[1] as int * 0x100 + header[2] as int,
                             header[3] as int * 0x100 + header[4] as int));
  }

  /** Reads a payload of n bytes, as every caller does right after the header. */
  method ReadPayload(conn: Conn, n: nat) returns (payload: Option<seq<byte>>)
    modifies conn`pending
    ensures payload.Some? == (n <= |old(conn.State().stream)|)
    ensures payload.Some? ==> payload.value == old(conn.State().stream)[..n]
    ensures payload.Some? ==> conn.State().stream == old(conn.State().stream)[n..]
    ensures payload.None? ==> conn.State().stream == []
  {
    var buf := new byte[n];
    var _, ok := ReadFull(conn, buf);
    if !ok {
      return None;
    }
    assert buf[..] == buf[..n];
    return Some(buf[..]);
  }

  /** A TLS 1.2 record: type, version 0x0303, 16-bit length, body. */
  function WrapRecord(contentType: byte, body: seq<byte>): (r: seq<byte>)
    ensures |r| == 5 + |body|
  {
    [contentType] + U16(TLS12) + U16(|body|) + body
  }

  /** The record's type and body as a receiver reads them, provided the length field is honest. */
  function Unwrap(record: seq<byte>): Option<(byte, seq<byte>)> {
    if |record| < 5 || GetU16(record, 3) != |record| - 5 then None
    else Some((record[0], record[5..]))
  }

  /** The 16-bit length field is honest exactly for bodies below 2^16 bytes. */
  lemma UnwrapOfWrap(contentType: byte, body: seq<byte>)
    ensures Unwrap(WrapRecord(contentType, body)) ==
            if |body| < 0x1_0000 then Some((contentType, body)) else None
  {
    var record := WrapRecord(contentType, body);
    assert record[5..] == body;
    assert GetU16(record, 3) == |body| / 0x100 % 0x100 * 0x100 + |body| % 0x100;
  }
}
