/** The peer wire protocol of BEP 3 as `src/Peers/peer.rs` speaks it: the
    68-byte handshake, the check of the peer's reply, the fixed `interested`
    and `request` frames, and the length-prefixed framing of `read_msg`.
    A TCP stream is the sequence of bytes it delivers; what is written to it
    is returned as a byte sequence. */
module PeerWire {
  import opened Bytes
  import opened Wrappers

  /** `b"BitTorrent protocol"`. */
  const ProtocolName: string := "BitTorrent protocol"
  const Protocol: Bytes19 := Ascii(ProtocolName)

  /** Message ids of `MsgId`. */
  const Choke: byte := 0
  const Unchoke: byte := 1
  const Interested: byte := 2
  const Have: byte := 4
  const Bitfield: byte := 5
  const Request: byte := 6
  const Piece: byte := 7
  /** The id `read_msg` reports for a keep-alive (a zero length prefix). */
  const KeepAlive: byte := 255

  /** The `Handshake` struct. */
  datatype Handshake = Handshake(
    length: byte,
    protocol: Bytes19,
    reserved: Bytes8,
    infohash: Bytes20,
    peerId: Bytes20)
  {
    /** The serialised handshake: every field in declaration order. */
    function Encoding(): seq<byte>
    {
      [length] + protocol + reserved + infohash + peerId
    }

    /** `Handshake::to_bytes`: push the length byte, then extend with each
        array field in turn. */
    method ToBytes() returns (bytes: seq<byte>)
      ensures bytes == Encoding()
    {
      bytes := [];
      bytes := bytes + [length];
      bytes := bytes + protocol;
      bytes := bytes + reserved;
      bytes := bytes + infohash;
      bytes := bytes + peerId;
    }
  }

  /** `Handshake::new`: a handshake whose serialisation starts with the
      byte 19, the protocol name and eight zero reserved bytes, followed by
      the info hash and the peer id. */
  function NewHandshake(infohash: Bytes20, peerId: Bytes20): (h: Handshake)
    ensures h.Encoding()[..28] == [19] + Protocol + Zeros(8)
    ensures h.Encoding()[28..] == infohash + peerId
  {
    var h := Handshake(19, Protocol, Zeros(8), infohash, peerId);
    assert h.Encoding() == ([19] + Protocol + Zeros(8)) + (infohash + peerId);
    h
  }

  /** Every handshake serialises to 68 bytes with its infohash at [28, 48)
      and its peer id at [48, 68); one built by `Handshake::new` starts with
      the byte 19, the protocol name and eight zero bytes. */
  lemma EncodingLayout(h: Handshake)
    ensures |h.Encoding()| == 68
    ensures h.Encoding()[0] == h.length && h.Encoding()[1..20] == h.protocol
    ensures h.Encoding()[20..28] == h.reserved
    ensures h.Encoding()[28..48] == h.infohash && h.Encoding()[48..68] == h.peerId
    ensures h == NewHandshake(h.infohash, h.peerId) ==>
      h.Encoding()[0] == 19 && h.Encoding()[1..20] == Protocol
      && forall i :: 20 <= i < 28 ==> h.Encoding()[i] == 0
  {
    var e := h.Encoding();
    assert e == [h.length] + h.protocol + h.reserved + h.infohash + h.peerId;
    assert e[1..20] == h.protocol;
    assert e[20..28] == h.reserved;
    assert e[28..48] == h.infohash;
    assert e[48..68] == h.peerId;
  }

  /** Two handshakes with the same serialisation are the same handshake. */
  lemma EncodingInjective(h: Handshake, g: Handshake)
    requires h.Encoding() == g.Encoding()
    ensures h == g
  {
    EncodingLayout(h);
    EncodingLayout(g);
  }

  type Bytes68 = s: seq<byte> | |s| == 68 witness Zeros(68)

  datatype HandshakeError = InvalidResponse | MismatchedHash

  /** The two checks `send_handshake` applies to the 68-byte reply. */
  function CheckReply(response: Bytes68, sent: Handshake): (r: Result<(), HandshakeError>)
    ensures r == Err(InvalidResponse) <==> response[0] != 19 || response[1..20] != Protocol
    ensures r == Err(MismatchedHash) <==>
      response[0] == 19 && response[1..20] == Protocol && response[28..48] != sent.infohash
    ensures r.Ok? ==> response[..20] == NewHandshake(sent.infohash, sent.peerId).Encoding()[..20]
  {
    EncodingLayout(NewHandshake(sent.infohash, sent.peerId));
    if response[0] != 19 || response[1..20] != Protocol then
      Err(InvalidResponse)
    else if response[28..48] != sent.infohash then
      Err(MismatchedHash)
    else
      assert response[..20] == [response[0]] + response[1..20];
      Ok(())
  }

  /** A peer answering with a handshake built by `Handshake::new` for the
      same infohash is accepted, whatever its peer id; one built for any
      other infohash is rejected as a hash mismatch. */
  lemma {:induction false} ReplyRoundTrip(infohash: Bytes20, peerId: Bytes20, other: Bytes20, theirId: Bytes20)
    ensures CheckReply(NewHandshake(infohash, theirId).Encoding(), NewHandshake(infohash, peerId)).Ok?
    ensures other != infohash ==>
      CheckReply(NewHandshake(other, theirId).Encoding(), NewHandshake(infohash, peerId))
        == Err(MismatchedHash)
  {
    EncodingLayout(NewHandshake(infohash, theirId));
    EncodingLayout(NewHandshake(other, theirId));
  }

  /** The `interested` frame: length 1, id 2 (peer.rs builds it twice). */
  const InterestedFrame: seq<byte> := [0, 0, 0, 1, 2]

  /** A message frame: a four-byte big-endian length covering the id byte
      and the payload, then the id, then the payload. */
  function EncodeMsg(id: byte, payload: seq<byte>): seq<byte>
    requires |payload| + 1 < 0x1_0000_0000
  {
    U32BE(|payload| + 1) + [id] + payload
  }

  /** The 17-byte `request` frame. */
  function RequestFrame(index: u32, begin: u32, length: u32): seq<byte>
  {
    U32BE(13) + [Request] + U32BE(index) + U32BE(begin) + U32BE(length)
  }

  /** `send_request` (and the identical `Handshake::request_piece`): a
      vector grown by one `extend_from_slice` or `push` per field. */
  method SendRequest(index: u32, begin: u32, length: u32) returns (m: seq<byte>)
    ensures m == RequestFrame(index, begin, length)
  {
    m := [];
    m := m + U32BE(13);
    m := m + [Request];
    m := m + U32BE(index);
    m := m + U32BE(begin);
    m := m + U32BE(length);
  }

  /** The request frame is 17 bytes: `00 00 00 0D`, id 6, then index, begin
      and length in big-endian order; it is the framed message with id 6 and
      that 12-byte payload. */
  lemma RequestFrameLayout(index: u32, begin: u32, length: u32)
    ensures |RequestFrame(index, begin, length)| == 17
    ensures RequestFrame(index, begin, length)[..5] == [0, 0, 0, 13, 6]
    ensures BigEndian(RequestFrame(index, begin, length)[5..9]) == index
    ensures BigEndian(RequestFrame(index, begin, length)[9..13]) == begin
    ensures BigEndian(RequestFrame(index, begin, length)[13..17]) == length
    ensures RequestFrame(index, begin, length)
      == EncodeMsg(Request, U32BE(index) + U32BE(begin) + U32BE(length))
  {
    var f := RequestFrame(index, begin, length);
    assert f == U32BE(13) + [Request] + U32BE(index) + U32BE(begin) + U32BE(length);
    assert f[5..9] == U32BE(index);
    assert f[9..13] == U32BE(begin);
    assert f[13..17] == U32BE(length);
  }

  /** What one call of `read_msg` yields: `Ok(None)` when the length prefix
      cannot be read, an error when the body is shorter than its declared
      length, or an id and payload together with the bytes still unread. */
  datatype Read = Eof | Truncated | Frame(id: byte, payload: seq<byte>, rest: seq<byte>)

  /** `read_msg`. */
  function ReadMsg(stream: seq<byte>): (r: Read)
    ensures r.Frame? ==> |r.rest| < |stream|
  {
    if |stream| < 4 then Eof
    else
      var len := BigEndian(stream[..4]);
      if len == 0 then Frame(KeepAlive, [], stream[4..])
      else if |stream| - 4 < len then Truncated
      else Frame(stream[4], stream[5..4 + len], stream[4 + len..])
  }

  /** The cases of `read_msg`: fewer than four bytes is end of stream, a zero
      length is a keep-alive reported as id 255, a body shorter than the
      prefix says is an error, and otherwise the id is the first body byte
      and the payload the remaining `len - 1`. */
  lemma ReadMsgCases(stream: seq<byte>)
    ensures ReadMsg(stream).Eof? <==> |stream| < 4
    ensures |stream| >= 4 && BigEndian(stream[..4]) == 0 ==>
      ReadMsg(stream) == Frame(KeepAlive, [], stream[4..])
    ensures ReadMsg(stream).Truncated? <==> |stream| >= 4 && |stream| - 4 < BigEndian(stream[..4])
    ensures ReadMsg(stream).Frame? && BigEndian(stream[..4]) > 0 ==>
      var len := BigEndian(stream[..4]);
      ReadMsg(stream).id == stream[4] && |ReadMsg(stream).payload| == len - 1
      && stream == stream[..4] + [ReadMsg(stream).id] + ReadMsg(stream).payload + ReadMsg(stream).rest
  {
    if |stream| >= 4 && BigEndian(stream[..4]) > 0 && ReadMsg(stream).Frame? {
      var len := BigEndian(stream[..4]);
      assert stream == stream[..4] + [stream[4]] + stream[5..4 + len] + stream[4 + len..];
    }
  }

  /** Decoding an encoded frame gives back its id and payload and leaves
      what follows unread. */
  lemma {:induction false} ReadMsgEncodeMsg(id: byte, payload: seq<byte>, rest: seq<byte>)
    requires |payload| + 1 < 0x1_0000_0000
    ensures ReadMsg(EncodeMsg(id, payload) + rest) == Frame(id, payload, rest)
  {
    var s := EncodeMsg(id, payload) + rest;
    assert s[..4] == U32BE(|payload| + 1);
    assert s[4] == id;
    assert s[5..5 + |payload|] == payload;
    assert s[5 + |payload|..] == rest;
  }

  /** The keep-alive frame and the interested frame decode as the source
      expects, and a `send_request` frame decodes to id 6 with the 12-byte
      payload holding index, begin and length. */
  lemma {:induction false} FixedFramesDecode(index: u32, begin: u32, length: u32, rest: seq<byte>)
    ensures ReadMsg([0, 0, 0, 0] + rest) == Frame(KeepAlive, [], rest)
    ensures ReadMsg(InterestedFrame + rest) == Frame(Interested, [], rest)
    ensures ReadMsg(RequestFrame(index, begin, length) + rest)
      == Frame(Request, U32BE(index) + U32BE(begin) + U32BE(length), rest)
  {
    assert InterestedFrame == EncodeMsg(Interested, []);
    ReadMsgEncodeMsg(Interested, [], rest);
    BigEndianSnoc([], 0);
    BigEndianSnoc([0], 0);
    BigEndianSnoc([0, 0], 0);
    BigEndianSnoc([0, 0, 0], 0);
    assert [0, 0, 0, 0] == [0, 0, 0] + [0];
    assert ([0, 0, 0, 0] + rest)[..4] == [0, 0, 0, 0];
    RequestFrameLayout(index, begin, length);
    ReadMsgEncodeMsg(Request, U32BE(index) + U32BE(begin) + U32BE(length), rest);
  }
}
