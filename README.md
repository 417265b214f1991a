# RusTor core, modelled in Dafny

RusTor is a small BitTorrent client written in Rust. This project models the
parts of it that build, parse and check bytes:

- **Peer wire protocol** (`src/Peers/peer.rs`): covers
  - the 68-byte handshake and the two checks made on the reply;
  - the framed messages (`interested`, `request` and `read_msg`);
  - `download_first_piece`. It sends `interested`, waits until the peer has
    unchoked and has announced piece 0, and requests piece 0 in 16 KiB
    blocks. It then copies `piece` payloads into a buffer until enough
    bytes have been counted, and finally checks the buffer's SHA-1.
- **HTTP tracker** (`src/Tracker/tracker.rs`): covers
  - the compact peer list (`visit_bytes`);
  - the dictionary peer list (`visit_seq`);
  - the announce URL;
  - the peer decoding of `query_http_tracker`.
- **UDP tracker** (`src/Tracker/udp.rs`): covers
  - the connect request;
  - the check of the connect response;
  - the 98-byte announce request;
  - the parsing of the announce response.
- **Torrent metadata** (`src/bittorent.rs`): covers `piece_hashes` and
  `total_length`.
- **Magnet links** (`src/Torrentfile/magnet.rs`): covers `parse_magnet_link`,
  including the hex and base32 (RFC 4648) decoding of the `btih` info hash.

Byte streams are `seq<byte>`. The bytes a peer or tracker sends are inputs.
The bytes the client writes are results. The stream is a sequence of bytes,
and `ReadMsg` consumes one frame from its front. A panic in the source (an
out-of-range index or slice) becomes an `Err` result of its own kind.

Modules and files:

| file | module | source |
|---|---|---|
| `wrappers.dfy` | `Wrappers` | `Option`, `Result` |
| `bytes.dfy` | `Bytes` | byte types, big-endian integers (`to_be_bytes`, `from_be_bytes`) |
| `peer_wire.dfy` | `PeerWire` | handshake and message frames of `peer.rs` |
| `peer_download.dfy` | `PeerDownload` | `download_first_piece` |
| `tracker.dfy` | `Tracker` | `tracker.rs` |
| `udp.dfy` | `UdpTracker` | `udp.rs` |
| `torrent_info.dfy` | `Bittorrent` | `bittorent.rs` |
| `text.dfy` | `AsciiText` | `str::len`, `to_ascii_lowercase`/`to_ascii_uppercase` |
| `rfc4648.dfy` | `Rfc4648` | `hex::decode`, `data_encoding::BASE32` |
| `magnet.dfy` | `Magnet` | `magnet.rs` |

All files are verified together, from this directory:

    dafny verify --resource-limit 2000000 --verification-time-limit 0 *.dfy

### Where the model follows the code rather than the protocol documents

BEP 3 and BEP 15 describe the protocols. In the places below the source does
something else, and the model does what the source does:

- **Connect request:**
  - The source's UDP connect request is 12 bytes: the protocol id, then the
    transaction id.
  - BEP 15's is 16 bytes, with a zero action field in between.
  - `UdpTracker.ConnectRequestIsNotBep15` states the difference.
- **Transaction ids are never checked:**
  - The connect response's action, bytes [0,4), must be 0, but its
    transaction id is not compared with the one sent
    (`UdpTracker.TransactionIdUnchecked`).
  - Neither the action nor the transaction id of the announce response is
    checked. Its peers are read from byte 20 of at most 1024 received bytes.
- **No retry or time-out** for UDP, and no retry of a piece.
  - A hash mismatch ends `download_first_piece` with an error.
  - Nothing is put back on a work queue.
- **Bytes are counted, not positions:** the collecting loop counts every
  copied byte, so a duplicate block counts twice (`PeerDownload.DuplicatesCounted`).

## Model

| member | source | states |
|---|---|---|
| PeerWire.Handshake.ToBytes | src/Peers/peer.rs:27-35 | The bytes pushed by `to_bytes` are exactly the handshake's serialisation: length byte, protocol, reserved, infohash, peer id. |
| PeerWire.NewHandshake | src/Peers/peer.rs:17-25 | A new handshake serialises to the byte 19, the protocol name and eight zero bytes, then the infohash and the peer id. `EncodingLayout` gives the offsets. |
| PeerWire.EncodingLayout | src/Peers/peer.rs:17-35 | Every serialised handshake has 68 bytes, with the length at 0, protocol at [1,20), reserved at [20,28), infohash at [28,48) and peer id at [48,68). One made by `new` starts with 19 and "BitTorrent protocol" and has eight zero reserved bytes. |
| PeerWire.EncodingInjective | src/Peers/peer.rs:27-35 | Two handshakes with the same bytes are the same handshake. |
| PeerWire.CheckReply | src/Peers/peer.rs:41-47 | "Invalid handshake response" exactly when byte 0 is not 19 or bytes [1,20) are not the protocol name. "Mismatched hash" exactly when the header is right but bytes [28,48) differ from the infohash sent. An accepted reply starts with the same 20 bytes as a new handshake. |
| PeerWire.ReplyRoundTrip | src/Peers/peer.rs:37-47 | A reply built by `new` for the same infohash is accepted whatever its peer id. One for another infohash is refused with "Mismatched hash". |
| PeerWire.SendRequest | src/Peers/peer.rs:119-124 | `send_request` writes the request frame for (index, begin, length). |
| PeerWire.RequestFrameLayout | src/Peers/peer.rs:62-67 | The request frame (also built by `Handshake::request_piece`) is 17 bytes: `00 00 00 0D`, id 6, then index, begin and length big-endian. It is the framed message with id 6 and that 12-byte payload. |
| PeerWire.ReadMsg | src/Peers/peer.rs:88-102 | Reading a frame always consumes bytes. |
| PeerWire.ReadMsgCases | src/Peers/peer.rs:90-101 | Covers the cases of `read_msg`. Fewer than four bytes is `None` (disconnected), and a zero length is the keep-alive id 255 with no payload. A body shorter than its length is an error. Otherwise the stream is the prefix, the id, the payload of length-1 bytes and the rest. |
| PeerWire.ReadMsgEncodeMsg | src/Peers/peer.rs:94-101 | Reading an encoded frame gives back its id and payload and leaves the following bytes unread. |
| PeerWire.FixedFramesDecode | src/Peers/peer.rs:95-126 | A keep-alive the peer may send reads back as id 255 with no payload. The two frames the client writes, `interested` and `request`, read back as id 2 and id 6 with their payloads. |
| PeerDownload.Observe | src/Peers/peer.rs:143-166 | One message moves the choke flag only when it is `choke` (set) or `unchoke` (cleared). It sets the piece-0 flag only when it announces piece 0, and never clears it. `ObserveAllMeaning` states the flags after a whole sequence. |
| PeerDownload.ObserveAllMeaning | src/Peers/peer.rs:141-170 | After any messages, the peer is unchoked exactly when an `unchoke` came with no `choke` after it. Piece 0 is known exactly when some `have 0` or bitfield with its top bit set arrived. |
| PeerDownload.HavePiece0Persists | src/Peers/peer.rs:150-162 | Once piece 0 is known it stays known. |
| PeerDownload.AwaitUnchoke | src/Peers/peer.rs:139-170 | The wait loop reads frames one by one. It returns right after the first message that leaves the peer unchoked with piece 0 known, and returns the remaining bytes. It fails with "disconnected before unchoke" at end of stream, or on a truncated frame, and never fails once the peer is ready. |
| PeerDownload.BlockPlanCovers | src/Peers/peer.rs:176-182 | Piece 0 is requested in ceil(len/16384) blocks. Block i starts at 16384*i, inside the piece, and has length min(16384, len - 16384*i), which is 1 to 16384 bytes. Each block starts where the previous one ended, and their lengths add up to the piece length. |
| PeerDownload.RequestBlocks | src/Peers/peer.rs:177-182 | The request loop sends one request frame per block of that plan, in order, with the offset cast to `u32`. |
| PeerDownload.Store | src/Peers/peer.rs:188-204 | Storing a payload keeps the buffer's length, and a payload that does not land leaves the buffer unchanged. `StoreMeaning` states where the bytes go. |
| PeerDownload.StoreMeaning | src/Peers/peer.rs:188-204 | A `piece` payload is ignored when it is shorter than 8 bytes, is not for index 0, or starts at or past the end. Otherwise exactly min(\|data\|, len-begin) bytes are copied at its offset, every other byte is unchanged, and that count is added to `received`. |
| PeerDownload.StoreBlock | src/Peers/peer.rs:196-204 | The in-place copy into the buffer leaves it as the stored-payload function says and returns the count. |
| PeerDownload.AssembleUnwritten | src/Peers/peer.rs:185-205 | Assembling keeps the buffer's length, and a byte that no `piece` message writes keeps its initial zero. |
| PeerDownload.AssembleLength | src/Peers/peer.rs:174 | The buffer keeps the length of piece 0 throughout. |
| PeerDownload.CollectPiece | src/Peers/peer.rs:185-209 | The collecting loop reads frames until the count reaches the length. On success the buffer is every `piece` message of the read sequence stored in turn, and no earlier prefix had reached the length. It fails with "disconnected while downloading" at end of stream, or on a truncated frame. |
| PeerDownload.DuplicatesCounted | src/Peers/peer.rs:204 | A one-byte block sent twice for a two-byte piece counts 2 and ends the loop, while byte 1 is never written. |
| PeerDownload.DownloadFirstPiece | src/Peers/peer.rs:129-219 | The whole operation. The client sends `interested`, then, only once the peer is ready, the requests of the block plan for min(piece_len, total_len) bytes. Each phase stops at the first message that ends it. A failure before the peer is ready is the end of the stream or a truncated frame at that point; a failure while collecting is one of those with fewer bytes counted than the length. It succeeds exactly when the peer becomes ready, the counted bytes reach the length and the assembled buffer's SHA-1 equals the expected digest, and then returns that buffer. "Hash mismatch" means the assembled buffer's digest differs. |
| Tracker.DecodeCompactMeaning | src/Tracker/tracker.rs:51-58 | `chunks_exact(6)` gives \|v\|/6 peers, peer i read from bytes [6i, 6i+6). |
| Tracker.DecodeCompactAppend | src/Tracker/tracker.rs:51-58 | Decoding distributes over concatenation at a record boundary. |
| Tracker.VisitBytes | src/Tracker/tracker.rs:44-60 | Fails exactly when the length is not a multiple of 6. Otherwise peer i has the IP of bytes 6i..6i+3 and the port of bytes 6i+4, 6i+5 big-endian. |
| Tracker.CompactRoundTrip | src/Tracker/tracker.rs:44-60 | Compact-encoding any peer list and decoding it with `visit_bytes` gives it back. |
| Tracker.DecodeEncodeCompact | src/Tracker/tracker.rs:51-58 | The chunk decoding inverts the compact encoding, which is 6 bytes per peer. |
| Tracker.VisitSeq | src/Tracker/tracker.rs:31-42 | Fails exactly when some list element is not a peer dictionary. Otherwise it returns, in order, the peers of the entries whose `ip` parses as IPv4. |
| Tracker.KeepParsedAppend | src/Tracker/tracker.rs:35-41 | Keeping parsed entries commutes with concatenation, so kept peers are in entry order. |
| Tracker.KeepParsedMembers | src/Tracker/tracker.rs:35-41 | A peer is in the result exactly when some entry's IP parses to its address and carries its port. The result is no longer than the input. |
| Tracker.DecimalRoundTrip | src/Tracker/tracker.rs:89-92 | `{}` of an integer is digits only and reads back as the integer. |
| Tracker.SplitJoin | src/Tracker/tracker.rs:89-92 | Splitting at a separator undoes joining with it when no part contains it. |
| Tracker.ParseJoinQuery | src/Tracker/tracker.rs:89-92 | A joined query reads back as its pairs when no key holds `&` or `=` and no value holds `&`. |
| Tracker.JoinSnoc | src/Tracker/tracker.rs:89-92 | Joining one more part appends the separator and the part. |
| Tracker.FormatAsJoin | src/Tracker/tracker.rs:89-92 | The `format!` string is the announce address, `?`, and the seven `key=value` parts joined with `&`. |
| Tracker.AnnounceUrl | src/Tracker/tracker.rs:86-92 | The URL starts with the announce address and `?`, and ends with `&compact=1`. `AnnounceUrlQuery` states the pairs in between. |
| Tracker.AnnounceUrlQuery | src/Tracker/tracker.rs:86-92 | The announce URL is the address, `?`, and `info_hash`, `peer_id`, `port`, `uploaded`, `downloaded`, `left`, `compact=1` in that order. A query parser reads these pairs back when the escaped identifiers hold no `&`; the layout alone holds for any encoder (`AnnounceUrlLayout`). |
| Tracker.AnnounceUrlLayout | src/Tracker/tracker.rs:86-92 | For any encoder, the announce URL is the address, `?`, and the seven `key=value` pairs joined with `&` in the `format!` order. |
| Tracker.HttpPeers | src/Tracker/tracker.rs:95-107 | As written, the decoding never yields a peer. `HttpPeersOnlyEmpty` states when it fails and how. |
| Tracker.HttpPeersOnlyEmpty | src/Tracker/tracker.rs:95-107 | As written, the HTTP peer decoding succeeds only on an empty peer string. A length that is not a multiple of 6 is rejected, and any other nonempty string panics on `c[33]`. |
| Tracker.HttpPeersIntendedIsVisitBytes | src/Tracker/tracker.rs:95-107 | With `c[3]`, `c[4]`, `c[5]`, the decoding equals `visit_bytes` on every input and inverts the compact encoding. |
| UdpTracker.ProtocolIdValue | src/Tracker/udp.rs:21 | The eight protocol-id bytes are 0x41727101980 big-endian. |
| UdpTracker.ConnectRequest | src/Tracker/udp.rs:21-23 | The connect request is 12 bytes: the protocol id, then the transaction id big-endian. |
| UdpTracker.ConnectRequestIsNotBep15 | src/Tracker/udp.rs:21-23 | The request is BEP 15's 16-byte connect request without its action field at [8,12). The two differ, and the transaction id sits where BEP 15 puts the action. |
| UdpTracker.Receive | src/Tracker/udp.rs:27 | `recv_from` fills min(datagram, buffer) bytes and leaves the rest of the buffer as it was. |
| UdpTracker.CheckConnectResponse | src/Tracker/udp.rs:26-32 | Accepted exactly when the datagram has at least 16 bytes and starts with four zero bytes, and otherwise "Invalid connection response". An accepted response yields its bytes [8,16) as the connection id. |
| UdpTracker.TransactionIdUnchecked | src/Tracker/udp.rs:26-32 | Replacing the echoed transaction id at [4,8) with any other value gives the same verdict and connection id. |
| UdpTracker.AnnounceHeader | src/Tracker/udp.rs:36-40 | The first 56 bytes of the announce request are the connection id, action 1, the transaction id, the infohash and the peer id, at [0,8), [8,12), [12,16), [16,36) and [36,56). |
| UdpTracker.AnnounceRequest | src/Tracker/udp.rs:35-48 | The announce request is 98 bytes. They are connection id, action 1, transaction id, infohash, peer id, then downloaded/left/uploaded (0, 8 bytes each) and event/IP/key (0, 4 bytes each). These are followed by num_want 0xFFFFFFFF and the port. |
| UdpTracker.DecodeOneRecord | src/Tracker/udp.rs:58-62 | A six-byte record decodes to a one-peer list. |
| UdpTracker.DecodeShort | src/Tracker/udp.rs:58-62 | Fewer than six bytes hold no peer. |
| UdpTracker.ParseAnnounceResponse | src/Tracker/udp.rs:52-62 | A response shorter than 20 bytes panics on `response[20..len]`. Otherwise the peers are the whole 6-byte records in bytes [20, min(len,1024)), peer i from bytes 20+6i.., and a trailing partial record is dropped. |
| UdpTracker.QueryUdpTracker | src/Tracker/udp.rs:6-65 | The exchange. It sends the connect request, then stops if the reply is rejected. Otherwise it sends one announce request carrying the reply's connection id, the same transaction id, the infohash and the peer id. The announce request's action, zero fields, num_want and port are as `AnnounceRequest` lays them out. It returns the peers of the announce reply, or the slice panic exactly when that reply is shorter than 20 bytes. |
| Bittorrent.PieceHashes | src/bittorent.rs:27-41 | Fails exactly when `pieces` is not a multiple of 20 bytes. Otherwise it gives \|pieces\|/20 digests, digest i being bytes [20i, 20i+20), and they concatenate back to `pieces`. |
| Bittorrent.Chunks20Meaning | src/bittorent.rs:31-39 | `chunks_exact(20)` gives \|p\|/20 digests, digest i from bytes [20i, 20i+20). |
| Bittorrent.ConcatChunks20 | src/bittorent.rs:31-39 | Splitting a whole number of digests and concatenating them gives the bytes back. |
| Bittorrent.Chunks20OfConcat | src/bittorent.rs:31-39 | Splitting concatenated digests gives the digests back. |
| Bittorrent.PieceHashesOfConcat | src/bittorent.rs:27-41 | For `pieces` laid out from any list of digests, `piece_hashes` returns exactly that list. |
| Bittorrent.TotalLength | src/bittorent.rs:43-52 | As written, the result is always the `length` field. `TotalLengthIntendedMeaning` states the corrected total. |
| Bittorrent.TotalLengthIsLength | src/bittorent.rs:43-52 | As written, `total_length` is the `length` field, whatever the file list holds. |
| Bittorrent.TotalLengthOfMultiFile | src/bittorent.rs:43-52 | A multi-file torrent with `length` defaulted to 0 and one 5-byte file reports 0 bytes. |
| Bittorrent.TotalLengthIntendedMeaning | src/bittorent.rs:43-52 | The intended total equals `length` for a single-file torrent. For a multi-file one it is additive over the file list and gives 5 for that example. |
| Bittorrent.FilesLengthAppend | src/bittorent.rs:47-50 | The sum of file lengths is additive over concatenation. |
| AsciiText.Utf8LenAscii | src/Torrentfile/magnet.rs:25-27 | A string's UTF-8 length, as `s.len()` measures it, is at least its character count. It equals the count exactly when the string is ASCII. |
| AsciiText.CaseMapping | src/Torrentfile/magnet.rs:26-29 | ASCII case mapping keeps the UTF-8 length and which characters are ASCII. Lower- or upper-casing forgets any earlier case mapping and is idempotent. |
| Rfc4648.HexDecode | src/Torrentfile/magnet.rs:26 | A successful decoding has an even-length input and gives half as many bytes. `HexDecodeMeaning` gives when it succeeds, and `HexRoundTrip` shows it inverts the encoding. |
| Rfc4648.HexRoundTrip | src/Torrentfile/magnet.rs:26 | Hex decoding inverts the lower-case hex encoding. |
| Rfc4648.HexDecodeMeaning | src/Torrentfile/magnet.rs:26 | `hex::decode` succeeds exactly on even-length strings of hex digits, giving half as many bytes, and such strings are ASCII. |
| Rfc4648.Base32Decode | src/Torrentfile/magnet.rs:28-30 | A successful decoding has an input of whole 8-character blocks and gives at most 5 bytes per block. `Base32DecodeLength`, `Base32RejectsBadInput` and `Base32RoundTrip` state the rest. |
| Rfc4648.PackUnpack | src/Torrentfile/magnet.rs:28-30 | Eight 5-bit symbols packed back into five bytes give the bytes that were split. |
| Rfc4648.DecodeEncodedBlock | src/Torrentfile/magnet.rs:28-30 | Decoding the eight symbols of a 5-byte group gives the group back. |
| Rfc4648.Base32DecodeCons | src/Torrentfile/magnet.rs:28-30 | A block followed by further blocks decodes to the concatenation of their decodings. |
| Rfc4648.Base32RejectsBadInput | src/Torrentfile/magnet.rs:28-30 | Any character that is neither a base32 symbol nor `=` makes decoding fail. |
| Rfc4648.Base32DecodeLength | src/Torrentfile/magnet.rs:28-30 | A successful decoding has an input of whole 8-character blocks and gives at most 5 bytes per block. It gives exactly 5 when there is no `=`. |
| Rfc4648.Base32RoundTrip | src/Torrentfile/magnet.rs:28-30 | Base32 decoding inverts the encoding of whole 5-byte groups. |
| Rfc4648.Base32EncodeAlphabet | src/Torrentfile/magnet.rs:28-30 | The encoding uses only `A`-`Z` and `2`-`7`. |
| Magnet.StripPrefix | src/Torrentfile/magnet.rs:24 | Succeeds exactly when the string starts with the prefix, and the prefix plus the result is the string. |
| Magnet.BtihPayload | src/Torrentfile/magnet.rs:13-24 | There is a payload exactly when the scheme is `magnet` and the first `xt` value starts with `urn:btih:`. The payload is what follows the prefix. |
| Magnet.DecodeBtih | src/Torrentfile/magnet.rs:24-33 | The length error occurs exactly when the payload is neither 40 nor 32 bytes long. The hex error needs 40 bytes and the base32 error 32, and no other error arises. |
| Magnet.DecodeBtihMeaning | src/Torrentfile/magnet.rs:24-40 | A 40-byte payload decodes exactly when every character, lower-cased, is a hex digit, and then gives 20 bytes. A 32-byte payload that decodes gives at most 20 bytes, and exactly 20 when it holds no `=`. |
| Magnet.ParseMagnet | src/Torrentfile/magnet.rs:11-61 | Covers `parse_magnet_link`. "Invalid scheme" exactly when the scheme is not `magnet`, and "missing xt" exactly when no `xt` pair exists. "Not btih" exactly when the first `xt` value lacks `urn:btih:`. "btih must be 40 hex or 32 base32 chars" exactly when the payload after `urn:btih:` is neither 40 nor 32 bytes long. The hex and base32 errors occur exactly when a 40-byte payload fails `hex::decode` or a 32-byte one fails `BASE32.decode`, and "must decode to 20 bytes" exactly when it decodes to another length. Parsing succeeds exactly when the payload decodes to 20 bytes. A success has the infohash, the values of all `tr` pairs in order as trackers, and the first `dn` as name. |
| Magnet.FindMeaning | src/Torrentfile/magnet.rs:17-22 | `find` returns the value of the first pair with the key, and nothing exactly when no pair has it. |
| Magnet.FilterValuesAppend | src/Torrentfile/magnet.rs:45-49 | Collecting the `tr` values commutes with concatenating query lists. |
| Magnet.FilterValuesOne | src/Torrentfile/magnet.rs:45-49 | One pair contributes its value exactly when its key matches. |
| Magnet.FilterValuesMembers | src/Torrentfile/magnet.rs:45-49 | A value is collected exactly when some pair carries it with the key. |
| Magnet.FindAppend | src/Torrentfile/magnet.rs:51-54 | A key absent from a prefix is looked up in the rest. |
| Magnet.BtihCaseInsensitive | src/Torrentfile/magnet.rs:24-33 | The payload's letter case does not change its decoding. |
| Magnet.HexBtihIs20Bytes | src/Torrentfile/magnet.rs:25-26 | A 40-byte payload that decodes gives exactly 20 bytes. |
| Magnet.Base32Ascii | src/Torrentfile/magnet.rs:27-30 | A string that base32-decodes is ASCII. |
| Magnet.Base32BtihLength | src/Torrentfile/magnet.rs:27-40 | A 32-byte payload that decodes gives at most 20 bytes, and exactly 20 when it holds no `=`. |
| Magnet.PaddedPayloadFailsLengthCheck | src/Torrentfile/magnet.rs:27-40 | Thirty-one `A`s and a `=` decode, to 19 bytes, so the link is refused with "btih must decode to 20 bytes". |
| Magnet.TrackerPairsValues | src/Torrentfile/magnet.rs:45-49 | The `tr` pairs of a tracker list give the list back and hold no `dn` or `xt`. |
| Magnet.QueryRest | src/Torrentfile/magnet.rs:45-54 | Tracker pairs followed by a name pair give back the trackers and the name. |
| Magnet.HexBtih | src/Torrentfile/magnet.rs:25-26 | An info hash in lower-case hex decodes to itself. |
| Magnet.Base32Btih | src/Torrentfile/magnet.rs:27-30 | An info hash in base32 decodes to itself. |
| Magnet.EncodedBtih | src/Torrentfile/magnet.rs:24-33 | Lower- or upper-case hex, or upper- or lower-case base32, of an info hash decode to it. |
| Magnet.MagnetRoundTrip | src/Torrentfile/magnet.rs:11-61 | A magnet link built from an info hash (in any of those four spellings), trackers and an optional name parses to exactly that hash, those trackers and that name. |

## Left out

- Sockets, TCP and UDP I/O, `async`, and the `?` on I/O errors that are not truncations are not modelled.
  - The stream is the bytes the peer or tracker sends.
  - A send is the bytes the function returns.
  - `send_handshake` is modelled by its serialisation and its two checks, not by its reads and writes.
- SHA-1 is the parameter `sha1` of `PeerDownload.DownloadFirstPiece`, because the `sha1` crate is not part of this model.
- `urlencoding::encode_binary` is the parameter `enc` of the announce URL.
  - The model proves the URL's layout and its read-back for any encoder whose output holds no `&`.
  - It does not check that the encoder escapes `&`.
- `Ipv4Addr::parse` is the parameter `parse` of `Tracker.VisitSeq`, because address parsing is standard-library code.
- The HTTP request, `serde_bencode` decoding of the tracker response, and serde's `PeerDict` decoding are not modelled. The dictionary list is given as a sequence of entries or malformed elements.
- `Url::parse` is not modelled: host and port extraction for the UDP tracker, and the magnet URI's scheme lowercasing and percent-decoding of query pairs.
  - The magnet parser starts from a URL already split into scheme and decoded query pairs.
  - A magnet URI that `Url::parse` rejects is therefore not represented.
- `rand::thread_rng` is not modelled. The transaction id and the peer id are parameters.
- Magnet.DecodeBtih: a hex decoding failure is one error kind (`InvalidHex`), where the `hex` crate distinguishes an odd length from an invalid character. The payload length is 40 at that point, so an odd length cannot occur.
- PeerDownload.CollectPiece: the `vec![0u8; len]` allocation is modelled as always succeeding, for any length.
- PeerDownload.RequestBlocks and PeerDownload.StoreBlock: the casts to `usize` are the identity on 64-bit targets, and `off as u32` wraps modulo 2^32 in `WireRequests`. 32-bit targets are not modelled.
- `Handshake::send_interested` and the free `send_interested` are the constant `PeerWire.InterestedFrame`, and `PeerWire.FixedFramesDecode` states how it reads back. They need no operation of their own.
- `src/main.rs`, `src/Torrentfile/torrent.rs` and `src/Bencode/` are not part of this model. This covers
  - command-line handling,
  - `.torrent` parsing,
  - bencode encoding and decoding,
  - the `Torrent` struct around `TorrentInfo`.
- BEP 15 connect and announce, as the protocol describes them, are not modelled: the model follows the code. The differences are listed above.
- Piece storage, a work queue and retries are not modelled because the source has none.

## Findings

| source | as written | input that shows it | evidently intended | confidence | as-written member | corrected member |
|---|---|---|---|---|---|---|
| src/Tracker/tracker.rs:103-104 | each 6-byte chunk reads `c[33]`, `c[34]`, `c[35]` | any nonempty compact peer string whose length is a multiple of 6, e.g. 6 bytes: the chunk has 6 bytes, so `c[33]` panics | `c[3]`, `c[4]`, `c[5]`, the layout `visit_bytes` uses | not executed | Tracker.HttpPeersOnlyEmpty | Tracker.HttpPeersIntendedIsVisitBytes |
| src/bittorent.rs:44 | `if let Some(len) = Some(self.length)` always matches, so the file list is never summed | a multi-file torrent: `length` 0 (absent) and one 5-byte file gives total 0 | sum the file lengths when `files` is present, as the `else` branch does | not executed | Bittorrent.TotalLengthOfMultiFile | Bittorrent.TotalLengthIntendedMeaning |
