/** The UDP tracker exchange of `query_udp_tracker` (`src/Tracker/udp.rs`),
    after the "connect" and "announce" sections of BEP 15. Datagrams sent
    are returned to the caller; datagrams received are parameters, copied
    into fixed-size receive buffers the way `recv_from` does. The transaction
    id, drawn at random in the source, is a parameter. */
module UdpTracker {
  import opened Bytes
  import opened Wrappers
  import opened Tracker

  /** The protocol id 0x41727101980 as the source spells it, eight bytes. */
  const ProtocolId: seq<byte> := [0x00, 0x00, 0x04, 0x17, 0x27, 0x10, 0x19, 0x80]

  /** The action field of an announce request. */
  const ActionAnnounce: seq<byte> := [0x00, 0x00, 0x00, 0x01]

  /** `num_want`, `!0u32`. */
  const NumWantAll: seq<byte> := [0xFF, 0xFF, 0xFF, 0xFF]

  datatype UdpError =
    | InvalidConnectionResponse  // fewer than 16 bytes arrived, or the action is not 0
    | SliceStartPastEnd          // a panic: `response[20..len]` with `len < 20`

  lemma ProtocolIdValue()
    ensures |ProtocolId| == 8 && BigEndian(ProtocolId) == 0x41727101980
  {
    var s: seq<byte> := [];
    BigEndianSnoc(s, 0x00); s := s + [0x00];
    BigEndianSnoc(s, 0x00); s := s + [0x00];
    BigEndianSnoc(s, 0x04); s := s + [0x04];
    BigEndianSnoc(s, 0x17); s := s + [0x17];
    BigEndianSnoc(s, 0x27); s := s + [0x27];
    BigEndianSnoc(s, 0x10); s := s + [0x10];
    BigEndianSnoc(s, 0x19); s := s + [0x19];
    BigEndianSnoc(s, 0x80); s := s + [0x80];
    assert s == ProtocolId;
  }

  // ---------------------------------------------------------------------
  // Connect
  // ---------------------------------------------------------------------

  /** The connect request: the protocol id followed directly by the
      big-endian transaction id. */
  method ConnectRequest(tid: u32) returns (req: seq<byte>)
    ensures |req| == 12
    ensures req[..8] == ProtocolId && BigEndian(req[..8]) == 0x41727101980
    ensures req[8..] == U32BE(tid) && BigEndian(req[8..]) == tid
  {
    req := ProtocolId;
    req := req + U32BE(tid);
    ProtocolIdValue();
    assert req[..8] == ProtocolId;
    assert req[8..] == U32BE(tid);
  }

  /** The connect request BEP 15 describes: protocol id, action 0, and the
      transaction id, sixteen bytes. */
  function Bep15ConnectRequest(tid: u32): seq<byte>
  {
    ProtocolId + U32BE(0) + U32BE(tid)
  }

  /** The request `ConnectRequest` builds is four bytes short of the one
      BEP 15 describes: it is that request with the action field removed,
      so a tracker reading BEP 15 offsets finds the transaction id where it
      expects the action, and no transaction id at all. */
  lemma ConnectRequestIsNotBep15(tid: u32)
    ensures |Bep15ConnectRequest(tid)| == 16 && |ProtocolId + U32BE(tid)| == 12
    ensures ProtocolId + U32BE(tid) == Bep15ConnectRequest(tid)[..8] + Bep15ConnectRequest(tid)[12..]
    ensures BigEndian(Bep15ConnectRequest(tid)[8..12]) == 0
    ensures ProtocolId + U32BE(tid) != Bep15ConnectRequest(tid)
    ensures (ProtocolId + U32BE(tid))[8..12] == U32BE(tid)
  {
    var b := Bep15ConnectRequest(tid);
    assert b[..8] == ProtocolId;
    assert b[8..12] == U32BE(0);
    assert b[12..] == U32BE(tid);
    assert (ProtocolId + U32BE(tid))[8..12] == U32BE(tid);
  }

  /** Copies a received datagram into a receive buffer, truncating it to the
      buffer's length, as `recv_from` does; returns the number of bytes
      copied. */
  method Receive(buf: array<byte>, datagram: seq<byte>) returns (len: nat)
    modifies buf
    ensures len == Min(|datagram|, buf.Length)
    ensures buf[..len] == datagram[..len]
    ensures buf[len..] == old(buf[len..])
  {
    len := Min(|datagram|, buf.Length);
    forall i | 0 <= i < len {
      buf[i] := datagram[i];
    }
  }

  /** What the check at udp.rs:30 accepts, in terms of the datagram that
      arrived: at least sixteen bytes, the first four zero. */
  predicate ConnectAccepted(datagram: seq<byte>)
  {
    |datagram| >= 16 && datagram[..4] == [0, 0, 0, 0]
  }

  /** Receives the connect response into a 16-byte buffer and checks it;
      on success returns the connection id, bytes [8, 16). */
  method CheckConnectResponse(datagram: seq<byte>) returns (r: Result<Bytes8, UdpError>)
    ensures r.Ok? <==> ConnectAccepted(datagram)
    ensures r.Ok? ==> r.value == datagram[8..16]
    ensures r.Err? ==> r.error == InvalidConnectionResponse
  {
    var buf := new byte[16](_ => 0);
    var len := Receive(buf, datagram);
    if len < 16 || buf[0..4] != [0, 0, 0, 0] {
      if |datagram| >= 16 {
        assert buf[..16][..4] == buf[0..4];
        assert datagram[..16][..4] == datagram[..4];
      }
      return Err(InvalidConnectionResponse);
    }
    assert buf[..16][..4] == buf[0..4];
    assert datagram[..16][..4] == datagram[..4];
    assert buf[..16][8..16] == buf[8..16];
    assert datagram[..16][8..16] == datagram[8..16];
    return Ok(buf[8..16]);
  }

  /** The transaction id the tracker echoes at [4, 8) plays no part in the
      check: replacing it with any other id, or with the id that was not
      sent, leaves the verdict unchanged. */
  lemma TransactionIdUnchecked(datagram: seq<byte>, tid: u32)
    requires |datagram| >= 16
    ensures var forged := datagram[..4] + U32BE(tid) + datagram[8..];
      |forged| == |datagram| && forged[8..16] == datagram[8..16] &&
      (ConnectAccepted(forged) <==> ConnectAccepted(datagram))
  {
    var forged := datagram[..4] + U32BE(tid) + datagram[8..];
    assert forged[..4] == datagram[..4];
    assert forged[8..16] == datagram[8..16];
  }

  // ---------------------------------------------------------------------
  // Announce
  // ---------------------------------------------------------------------

  /** The announce request, at the offsets of BEP 15: connection id,
      action 1, transaction id, info hash, peer id, downloaded, left and
      uploaded all 0, event 0 (none), IP address 0, key 0, `num_want`
      0xFFFFFFFF (-1 as a signed integer), and the port. */
  method AnnounceRequest(connId: Bytes8, tid: u32, infohash: Bytes20, peerId: Bytes20, port: u16)
    returns (req: seq<byte>)
    ensures |req| == 98
    ensures req[0..8] == connId
    ensures req[8..12] == ActionAnnounce && BigEndian(req[8..12]) == 1
    ensures req[12..16] == U32BE(tid) && BigEndian(req[12..16]) == tid
    ensures req[16..36] == infohash && req[36..56] == peerId
    ensures forall i :: 56 <= i < 92 ==> req[i] == 0
    ensures BigEndian(req[56..64]) == 0 && BigEndian(req[64..72]) == 0 && BigEndian(req[72..80]) == 0
    ensures BigEndian(req[80..84]) == 0 && BigEndian(req[84..88]) == 0 && BigEndian(req[88..92]) == 0
    ensures req[92..96] == NumWantAll && BigEndian(req[92..96]) == 0xFFFF_FFFF
    ensures req[96..98] == U16BE(port) && BigEndian(req[96..98]) == port
  {
    req := connId;
    req := req + ActionAnnounce;
    req := req + U32BE(tid);
    req := req + infohash;
    req := req + peerId;
    ghost var head := req;
    AnnounceHeader(connId, tid, infohash, peerId);
    req := req + Zeros(8);
    req := req + Zeros(8);
    req := req + Zeros(8);
    req := req + Zeros(4);
    req := req + Zeros(4);
    req := req + Zeros(4);
    ghost var body := req;
    assert body[..56] == head;
    assert forall i :: 56 <= i < 92 ==> body[i] == 0;
    req := req + NumWantAll;
    req := req + U16BE(port);
    assert req[..92] == body;
    assert req[0..8] == head[0..8] && req[8..12] == head[8..12] && req[12..16] == head[12..16];
    assert req[16..36] == head[16..36] && req[36..56] == head[36..56];
    AnnounceFieldValues(req);
  }

  /** The first 56 bytes of the announce request, one field after another:
      each append keeps the bytes before it and puts the new field at the
      end. */
  lemma AnnounceHeader(connId: Bytes8, tid: u32, infohash: Bytes20, peerId: Bytes20)
    ensures var head := connId + ActionAnnounce + U32BE(tid) + infohash + peerId;
      && |head| == 56
      && head[0..8] == connId && head[8..12] == ActionAnnounce && head[12..16] == U32BE(tid)
      && head[16..36] == infohash && head[36..56] == peerId
  {
    var a := connId + ActionAnnounce;
    assert a[0..8] == connId && a[8..12] == ActionAnnounce;
    var b := a + U32BE(tid);
    assert b[..12] == a && b[12..16] == U32BE(tid);
    assert b[0..8] == a[0..8] && b[8..12] == a[8..12];
    var c := b + infohash;
    assert c[..16] == b && c[16..36] == infohash;
    assert c[0..8] == b[0..8] && c[8..12] == b[8..12] && c[12..16] == b[12..16];
    var d := c + peerId;
    assert d[..36] == c && d[36..56] == peerId;
    assert d[0..8] == c[0..8] && d[8..12] == c[8..12] && d[12..16] == c[12..16] && d[16..36] == c[16..36];
  }

  lemma AnnounceFieldValues(req: seq<byte>)
    requires |req| == 98
    requires req[8..12] == ActionAnnounce && req[92..96] == NumWantAll
    requires forall i :: 56 <= i < 92 ==> req[i] == 0
    ensures BigEndian(req[8..12]) == 1 && BigEndian(req[92..96]) == 0xFFFF_FFFF
    ensures BigEndian(req[56..64]) == 0 && BigEndian(req[64..72]) == 0 && BigEndian(req[72..80]) == 0
    ensures BigEndian(req[80..84]) == 0 && BigEndian(req[84..88]) == 0 && BigEndian(req[88..92]) == 0
  {
    assert ActionAnnounce == U32BE(1);
    assert NumWantAll == U32BE(0xFFFF_FFFF);
    BigEndianZeros(8);
    BigEndianZeros(4);
    assert req[56..64] == Zeros(8) && req[64..72] == Zeros(8) && req[72..80] == Zeros(8);
    assert req[80..84] == Zeros(4) && req[84..88] == Zeros(4) && req[88..92] == Zeros(4);
  }

  /** A six-byte record decodes to a one-peer list. */
  lemma DecodeOneRecord(chunk: seq<byte>)
    requires |chunk| == 6
    ensures DecodeCompact(chunk) == [DecodePeer(chunk)]
  {
    assert chunk[..6] == chunk;
    assert DecodeCompact(chunk[6..]) == [];
  }

  /** Fewer than six bytes hold no record. */
  lemma DecodeShort(rest: seq<byte>)
    requires |rest| < 6
    ensures DecodeCompact(rest) == []
  {
  }

  /** Receives the announce response into a 1024-byte buffer and decodes
      the six-byte records after its 20-byte header, in order, ignoring a
      trailing partial record; the header's action, transaction id,
      interval and counts are not read. Fewer than 20 bytes make the slice
      `response[20..len]` panic. */
  method ParseAnnounceResponse(datagram: seq<byte>) returns (r: Result<seq<SocketAddr>, UdpError>)
    ensures r.Err? <==> |datagram| < 20
    ensures r.Err? ==> r.error == SliceStartPastEnd
    ensures r.Ok? ==> var data := datagram[20..Min(|datagram|, 1024)];
      && r.value == DecodeCompact(data)
      && |r.value| == |data| / 6
      && forall i :: 0 <= i < |r.value| ==> r.value[i] == DecodePeer(data[6 * i..6 * i + 6])
  {
    var response := new byte[1024](_ => 0);
    var len := Receive(response, datagram);
    if len < 20 {
      return Err(SliceStartPastEnd);
    }
    var data := response[20..len];
    assert data == datagram[20..len] by {
      assert response[..len][20..] == data;
      assert datagram[..len][20..] == datagram[20..len];
    }
    var count := |data| / 6;
    var peers: seq<SocketAddr> := [];
    for k := 0 to count
      invariant peers == DecodeCompact(data[..6 * k])
    {
      var chunk := data[6 * k..6 * k + 6];
      assert data[..6 * k + 6] == data[..6 * k] + chunk;
      DecodeCompactAppend(data[..6 * k], chunk);
      DecodeOneRecord(chunk);
      peers := peers + [DecodePeer(chunk)];
    }
    assert data == data[..6 * count] + data[6 * count..];
    DecodeCompactAppend(data[..6 * count], data[6 * count..]);
    DecodeShort(data[6 * count..]);
    DecodeCompactMeaning(data);
    return Ok(peers);
  }

  // ---------------------------------------------------------------------
  // The whole exchange
  // ---------------------------------------------------------------------

  /** `query_udp_tracker` after the tracker address is resolved: sends the
      connect request, checks the reply, sends the announce request with
      the connection id and the same transaction id, and decodes the
      announce reply. `sent` lists the datagrams sent, in order. */
  method QueryUdpTracker(tid: u32, infohash: Bytes20, peerId: Bytes20, port: u16,
                         connectReply: seq<byte>, announceReply: seq<byte>)
    returns (sent: seq<seq<byte>>, r: Result<seq<SocketAddr>, UdpError>)
    ensures 1 <= |sent| <= 2
    ensures sent[0] == ProtocolId + U32BE(tid)
    ensures !ConnectAccepted(connectReply) ==> |sent| == 1 && r == Err(InvalidConnectionResponse)
    ensures ConnectAccepted(connectReply) ==>
      && |sent| == 2 && |sent[1]| == 98
      && sent[1][0..8] == connectReply[8..16]
      && sent[1][8..12] == ActionAnnounce
      && sent[1][12..16] == sent[0][8..12]
      && sent[1][16..36] == infohash && sent[1][36..56] == peerId
      && (forall i :: 56 <= i < 92 ==> sent[1][i] == 0)
      && sent[1][92..96] == NumWantAll
      && sent[1][96..98] == U16BE(port)
      && (r.Err? <==> |announceReply| < 20)
      && (r.Err? ==> r.error == SliceStartPastEnd)
      && (r.Ok? ==> r.value == DecodeCompact(announceReply[20..Min(|announceReply|, 1024)]))
  {
    var connect := ConnectRequest(tid);
    sent := [connect];
    assert connect == ProtocolId + U32BE(tid);
    var conn := CheckConnectResponse(connectReply);
    if conn.Err? {
      return sent, Err(InvalidConnectionResponse);
    }
    var announce := AnnounceRequest(conn.value, tid, infohash, peerId, port);
    sent := sent + [announce];
    r := ParseAnnounceResponse(announceReply);
  }
}
