/** Peer lists from an HTTP tracker (`src/Tracker/tracker.rs`): the compact
    form of BEP 23 (six bytes per peer: IPv4 address, then big-endian port),
    the list-of-dictionaries form, the announce URL, and the decoding that
    `query_http_tracker` does itself. Bencode, the HTTP request, URL
    escaping and `Ipv4Addr` parsing are outside the model: the escaping and
    the parser are parameters. */
module Tracker {
  import opened Bytes
  import opened Wrappers

  datatype Ipv4 = Ipv4(a: byte, b: byte, c: byte, d: byte)

  /** `SocketAddrV4`. */
  datatype SocketAddr = SocketAddr(ip: Ipv4, port: u16)

  datatype PeerListError =
    | InvalidCompactLength  // the compact list's length is not a multiple of 6
    | MalformedEntry        // an element of the list is not a peer dictionary
    | IndexOutOfBounds      // a panic: an index past the end of a slice

  /** One six-byte compact record. */
  function DecodePeer(chunk: seq<byte>): SocketAddr
    requires |chunk| == 6
  {
    SocketAddr(Ipv4(chunk[0], chunk[1], chunk[2], chunk[3]), chunk[4] as int * 0x100 + chunk[5] as int)
  }

  /** The compact record of one peer. */
  function EncodePeer(p: SocketAddr): seq<byte>
  {
    [p.ip.a, p.ip.b, p.ip.c, p.ip.d] + U16BE(p.port)
  }

  /** `chunks_exact(6)` mapped through `DecodePeer`; a trailing partial
      chunk is dropped. */
  function DecodeCompact(v: seq<byte>): seq<SocketAddr>
    decreases |v|
  {
    if |v| < 6 then [] else [DecodePeer(v[..6])] + DecodeCompact(v[6..])
  }

  /** The compact encoding of a peer list. */
  function EncodeCompact(peers: seq<SocketAddr>): seq<byte>
  {
    if peers == [] then [] else EncodePeer(peers[0]) + EncodeCompact(peers[1..])
  }

  /** `DecodeCompact` yields `|v| / 6` peers, peer `i` read from bytes
      [6i, 6i + 6). */
  lemma {:induction false} DecodeCompactMeaning(v: seq<byte>)
    ensures |DecodeCompact(v)| == |v| / 6
    ensures forall i :: 0 <= i < |v| / 6 ==> DecodeCompact(v)[i] == DecodePeer(v[6 * i..6 * i + 6])
    decreases |v|
  {
    if |v| >= 6 {
      DecodeCompactMeaning(v[6..]);
      forall i | 1 <= i < |v| / 6
        ensures DecodeCompact(v)[i] == DecodePeer(v[6 * i..6 * i + 6])
      {
        assert v[6..][6 * (i - 1)..6 * (i - 1) + 6] == v[6 * i..6 * i + 6];
      }
    }
  }

  /** Decoding distributes over concatenation at a record boundary. */
  lemma {:induction false} DecodeCompactAppend(a: seq<byte>, b: seq<byte>)
    requires |a| % 6 == 0
    ensures DecodeCompact(a + b) == DecodeCompact(a) + DecodeCompact(b)
    decreases |a|
  {
    if |a| >= 6 {
      assert (a + b)[..6] == a[..6];
      assert (a + b)[6..] == a[6..] + b;
      DecodeCompactAppend(a[6..], b);
    } else {
      assert a == [];
      assert a + b == b;
    }
  }

  /** `PeerVisitor::visit_bytes`. */
  function VisitBytes(v: seq<byte>): (r: Result<seq<SocketAddr>, PeerListError>)
    ensures r.Err? <==> |v| % 6 != 0
    ensures r.Err? ==> r.error == InvalidCompactLength
    ensures r.Ok? ==> |r.value| == |v| / 6 && forall i :: 0 <= i < |r.value| ==>
      r.value[i] == SocketAddr(Ipv4(v[6 * i], v[6 * i + 1], v[6 * i + 2], v[6 * i + 3]),
                               v[6 * i + 4] as int * 0x100 + v[6 * i + 5] as int)
  {
    if |v| % 6 != 0 then Err(InvalidCompactLength)
    else
      DecodeCompactMeaning(v);
      Ok(DecodeCompact(v))
  }

  /** Compact-encoding a list of peers and decoding it with `visit_bytes`
      gives the same list back. */
  lemma {:induction false} CompactRoundTrip(peers: seq<SocketAddr>)
    ensures |EncodeCompact(peers)| == 6 * |peers|
    ensures VisitBytes(EncodeCompact(peers)) == Ok(peers)
  {
    DecodeEncodeCompact(peers);
  }

  lemma {:induction false} DecodeEncodeCompact(peers: seq<SocketAddr>)
    ensures |EncodeCompact(peers)| == 6 * |peers|
    ensures DecodeCompact(EncodeCompact(peers)) == peers
  {
    if peers != [] {
      DecodeEncodeCompact(peers[1..]);
      var e := EncodePeer(peers[0]);
      var whole := EncodeCompact(peers);
      assert whole[..6] == e;
      assert whole[6..] == EncodeCompact(peers[1..]);
      U16BEOfBigEndian(e[4..6]);
      assert e[4..6] == U16BE(peers[0].port);
      assert DecodePeer(e) == peers[0];
      assert [peers[0]] + peers[1..] == peers;
    }
  }

  // ---------------------------------------------------------------------
  // The list-of-dictionaries form
  // ---------------------------------------------------------------------

  /** `PeerDict`. */
  datatype PeerDict = PeerDict(ip: string, port: u16)

  /** What `next_element::<PeerDict>()` yields for one list element. */
  datatype Element = Entry(dict: PeerDict) | Malformed

  /** The peers of the entries whose `ip` parses as IPv4, in order. */
  function KeepParsed(elements: seq<Element>, parse: string -> Option<Ipv4>): seq<SocketAddr>
  {
    if elements == [] then []
    else
      var last := elements[|elements| - 1];
      KeepParsed(elements[..|elements| - 1], parse)
        + if last.Entry? && parse(last.dict.ip).Some? then [SocketAddr(parse(last.dict.ip).value, last.dict.port)] else []
  }

  /** `PeerVisitor::visit_seq`: read the elements one at a time, pushing
      each entry whose address parses; the first malformed element aborts
      the whole list. */
  method VisitSeq(elements: seq<Element>, parse: string -> Option<Ipv4>)
    returns (r: Result<seq<SocketAddr>, PeerListError>)
    ensures r.Err? <==> exists i :: 0 <= i < |elements| && elements[i].Malformed?
    ensures r.Err? ==> r.error == MalformedEntry
    ensures r.Ok? ==> r.value == KeepParsed(elements, parse)
  {
    var peers := [];
    var i := 0;
    while i < |elements|
      invariant i <= |elements|
      invariant forall j :: 0 <= j < i ==> elements[j].Entry?
      invariant peers == KeepParsed(elements[..i], parse)
    {
      if elements[i].Malformed? {
        return Err(MalformedEntry);
      }
      var peer := elements[i].dict;
      assert elements[..i + 1][..i] == elements[..i];
      var ip := parse(peer.ip);
      if ip.Some? {
        peers := peers + [SocketAddr(ip.value, peer.port)];
      }
      i := i + 1;
    }
    assert elements[..i] == elements;
    r := Ok(peers);
  }

  /** Keeping parsed entries commutes with concatenation, so the kept peers
      appear in the order of their entries. */
  lemma {:induction false} KeepParsedAppend(a: seq<Element>, b: seq<Element>, parse: string -> Option<Ipv4>)
    ensures KeepParsed(a + b, parse) == KeepParsed(a, parse) + KeepParsed(b, parse)
    decreases |b|
  {
    if b == [] {
      assert a + b == a;
    } else {
      assert (a + b)[..|a + b| - 1] == a + b[..|b| - 1];
      KeepParsedAppend(a, b[..|b| - 1], parse);
    }
  }

  /** A peer is kept exactly when some entry's `ip` parses to its address
      and the entry carries its port; no kept list is longer than the
      input. */
  lemma {:induction false} KeepParsedMembers(elements: seq<Element>, parse: string -> Option<Ipv4>, p: SocketAddr)
    ensures |KeepParsed(elements, parse)| <= |elements|
    ensures p in KeepParsed(elements, parse) <==>
      exists i :: 0 <= i < |elements| && elements[i].Entry? && parse(elements[i].dict.ip) == Some(p.ip)
        && elements[i].dict.port == p.port
  {
    if elements != [] {
      var front := elements[..|elements| - 1];
      KeepParsedMembers(front, parse, p);
      assert forall i :: 0 <= i < |front| ==> front[i] == elements[i];
      var last := elements[|elements| - 1];
      if p in KeepParsed(elements, parse) && p !in KeepParsed(front, parse) {
        assert elements[|elements| - 1] == last;
      }
    }
  }

  // ---------------------------------------------------------------------
  // The announce URL
  // ---------------------------------------------------------------------

  function DigitChar(d: nat): char
    requires d < 10
  {
    ('0' as int + d) as char
  }

  /** `format!("{}", n)`. */
  function Decimal(n: nat): (s: string)
    ensures |s| > 0
  {
    if n < 10 then [DigitChar(n)] else Decimal(n / 10) + [DigitChar(n % 10)]
  }

  /** The value of a string of decimal digits. */
  function DecimalValue(s: string): int
  {
    if s == [] then 0 else DecimalValue(s[..|s| - 1]) * 10 + (s[|s| - 1] as int - '0' as int)
  }

  /** Decimal rendering uses digits only and reads back as the number. */
  lemma {:induction false} DecimalRoundTrip(n: nat)
    ensures forall i :: 0 <= i < |Decimal(n)| ==> '0' <= Decimal(n)[i] <= '9'
    ensures DecimalValue(Decimal(n)) == n
  {
    if n >= 10 {
      DecimalRoundTrip(n / 10);
      var s := Decimal(n);
      assert s[..|s| - 1] == Decimal(n / 10);
    }
  }

  /** The URL `query_http_tracker` requests, built by `format!` with the
      parameters in their fixed order. `enc` is `urlencoding::encode_binary`. */
  function AnnounceUrl(announce: string, infohash: Bytes20, peerId: Bytes20, port: u16,
                       uploaded: u64, downloaded: u64, left: u64, enc: seq<byte> -> string): (url: string)
    ensures |announce| < |url| && url[..|announce|] == announce && url[|announce|] == '?'
    ensures |url| >= 10 && url[|url| - 10..] == "&compact=1"
  {
    announce + "?info_hash=" + enc(infohash) + "&peer_id=" + enc(peerId) + "&port=" + Decimal(port)
      + "&uploaded=" + Decimal(uploaded) + "&downloaded=" + Decimal(downloaded) + "&left=" + Decimal(left)
      + "&compact=1"
  }

  /** The announce query as (key, value) pairs. */
  function AnnounceParams(infohash: Bytes20, peerId: Bytes20, port: u16,
                          uploaded: u64, downloaded: u64, left: u64, enc: seq<byte> -> string): seq<(string, string)>
  {
    [("info_hash", enc(infohash)), ("peer_id", enc(peerId)), ("port", Decimal(port)),
     ("uploaded", Decimal(uploaded)), ("downloaded", Decimal(downloaded)), ("left", Decimal(left)),
     ("compact", "1")]
  }

  /** `parts` joined with `sep` between neighbours. */
  function Join(parts: seq<string>, sep: char): string
    requires |parts| > 0
  {
    if |parts| == 1 then parts[0] else parts[0] + [sep] + Join(parts[1..], sep)
  }

  /** The position of the first `c` in `s`. */
  function IndexOf(s: string, c: char): (i: nat)
    requires c in s
    ensures i < |s| && s[i] == c && c !in s[..i]
  {
    if s[0] == c then 0
    else
      IndexOfTail(s, c, IndexOf(s[1..], c));
      1 + IndexOf(s[1..], c)
  }

  /** A `c` first found at `j` in the tail of `s`, whose head is not `c`, is
      first found at `j + 1` in `s`. */
  lemma IndexOfTail(s: string, c: char, j: nat)
    requires |s| > 0 && s[0] != c
    requires j < |s[1..]| && s[1..][j] == c && c !in s[1..][..j]
    ensures s[j + 1] == c && c !in s[..j + 1]
  {
    assert s[..j + 1] == [s[0]] + s[1..][..j];
  }

  /** `s` cut at every `sep`. */
  function Split(s: string, sep: char): seq<string>
    decreases |s|
  {
    if sep !in s then [s]
    else
      var i := IndexOf(s, sep);
      [s[..i]] + Split(s[i + 1..], sep)
  }

  /** A query string read back as pairs: split at `&`, then each part at its
      first `=`. */
  function ParseQuery(q: string): seq<(string, string)>
  {
    var parts := Split(q, '&');
    seq(|parts|, i requires 0 <= i < |parts| =>
      var p := parts[i];
      if '=' in p then (p[..IndexOf(p, '=')], p[IndexOf(p, '=') + 1..]) else (p, ""))
  }

  function JoinQuery(pairs: seq<(string, string)>): string
    requires |pairs| > 0
  {
    Join(seq(|pairs|, i requires 0 <= i < |pairs| => pairs[i].0 + "=" + pairs[i].1), '&')
  }

  /** Splitting undoes joining when no part contains the separator. */
  lemma {:induction false} SplitJoin(parts: seq<string>, sep: char)
    requires |parts| > 0
    requires forall i :: 0 <= i < |parts| ==> sep !in parts[i]
    ensures Split(Join(parts, sep), sep) == parts
    decreases |parts|
  {
    if |parts| == 1 {
    } else {
      var tail := Join(parts[1..], sep);
      var s := Join(parts, sep);
      assert s == parts[0] + [sep] + tail;
      assert s[|parts[0]|] == sep;
      assert s[..|parts[0]|] == parts[0];
      var i := IndexOf(s, sep);
      assert i == |parts[0]|;
      assert s[i + 1..] == tail;
      SplitJoin(parts[1..], sep);
      assert [parts[0]] + parts[1..] == parts;
    }
  }

  /** Reading a joined query gives back its pairs when no key holds `&` or
      `=` and no value holds `&`. */
  lemma ParseJoinQuery(pairs: seq<(string, string)>)
    requires |pairs| > 0
    requires forall i :: 0 <= i < |pairs| ==> '&' !in pairs[i].0 && '=' !in pairs[i].0 && '&' !in pairs[i].1
    ensures ParseQuery(JoinQuery(pairs)) == pairs
  {
    var parts := seq(|pairs|, i requires 0 <= i < |pairs| => pairs[i].0 + "=" + pairs[i].1);
    forall i | 0 <= i < |parts|
      ensures '&' !in parts[i]
    {
      assert parts[i] == pairs[i].0 + "=" + pairs[i].1;
    }
    SplitJoin(parts, '&');
    forall i | 0 <= i < |pairs|
      ensures ParseQuery(JoinQuery(pairs))[i] == pairs[i]
    {
      var p := parts[i];
      var k := |pairs[i].0|;
      assert p[k] == '=';
      var j := IndexOf(p, '=');
      assert j == k;
      assert p[..k] == pairs[i].0 && p[k + 1..] == pairs[i].1;
    }
  }

  /** Joining one more part appends the separator and the part. */
  lemma {:induction false} JoinSnoc(parts: seq<string>, p: string, sep: char)
    requires |parts| > 0
    ensures Join(parts + [p], sep) == Join(parts, sep) + [sep] + p
    decreases |parts|
  {
    if |parts| == 1 {
      assert (parts + [p])[1..] == [p];
    } else {
      assert (parts + [p])[1..] == parts[1..] + [p];
      JoinSnoc(parts[1..], p, sep);
    }
  }

  lemma FieldStep(an: string, parts: seq<string>, lit: string, key: string, v: string, x: string)
    requires |parts| > 0 && x == an + "?" + Join(parts, '&') && lit == "&" + key + "="
    ensures x + lit + v == an + "?" + Join(parts + [key + "=" + v], '&')
  {
    JoinSnoc(parts, key + "=" + v, '&');
    ConcatStep(an, Join(parts, '&'), key, v, x);
  }

  lemma ConcatStep(an: string, j: string, key: string, v: string, x: string)
    requires x == an + "?" + j
    ensures x + ("&" + key + "=") + v == an + "?" + (j + "&" + (key + "=" + v))
  {
  }

  /** The first four parameters of the announce URL. */
  lemma FormatHead(an: string, e1: string, e2: string, d1: string, d2: string)
    ensures an + "?info_hash=" + e1 + "&peer_id=" + e2 + "&port=" + d1 + "&uploaded=" + d2
      == an + "?" + Join(["info_hash" + "=" + e1, "peer_id" + "=" + e2, "port" + "=" + d1, "uploaded" + "=" + d2], '&')
  {
    var p0, p1, p2, p3 := "info_hash" + "=" + e1, "peer_id" + "=" + e2, "port" + "=" + d1, "uploaded" + "=" + d2;
    var x1 := an + "?info_hash=" + e1;
    assert "?info_hash=" == "?" + "info_hash" + "=";
    assert x1 == an + "?" + Join([p0], '&');
    FieldStep(an, [p0], "&peer_id=", "peer_id", e2, x1);
    assert [p0] + [p1] == [p0, p1];
    FieldStep(an, [p0, p1], "&port=", "port", d1, x1 + "&peer_id=" + e2);
    assert [p0, p1] + [p2] == [p0, p1, p2];
    FieldStep(an, [p0, p1, p2], "&uploaded=", "uploaded", d2, x1 + "&peer_id=" + e2 + "&port=" + d1);
    assert [p0, p1, p2] + [p3] == [p0, p1, p2, p3];
  }

  /** The `format!` string of the announce URL is the announce address,
      `?`, and the seven `key=value` parts joined with `&`. */
  lemma FormatAsJoin(an: string, e1: string, e2: string, d1: string, d2: string, d3: string, d4: string)
    ensures an + "?info_hash=" + e1 + "&peer_id=" + e2 + "&port=" + d1 + "&uploaded=" + d2
      + "&downloaded=" + d3 + "&left=" + d4 + "&compact=1"
      == an + "?" + Join(["info_hash" + "=" + e1, "peer_id" + "=" + e2, "port" + "=" + d1, "uploaded" + "=" + d2,
                         "downloaded" + "=" + d3, "left" + "=" + d4, "compact" + "=" + "1"], '&')
  {
    var p0, p1, p2, p3 := "info_hash" + "=" + e1, "peer_id" + "=" + e2, "port" + "=" + d1, "uploaded" + "=" + d2;
    var p4, p5, p6 := "downloaded" + "=" + d3, "left" + "=" + d4, "compact" + "=" + "1";
    var x4 := an + "?info_hash=" + e1 + "&peer_id=" + e2 + "&port=" + d1 + "&uploaded=" + d2;
    FormatHead(an, e1, e2, d1, d2);
    FieldStep(an, [p0, p1, p2, p3], "&downloaded=", "downloaded", d3, x4);
    assert [p0, p1, p2, p3] + [p4] == [p0, p1, p2, p3, p4];
    FieldStep(an, [p0, p1, p2, p3, p4], "&left=", "left", d4, x4 + "&downloaded=" + d3);
    assert [p0, p1, p2, p3, p4] + [p5] == [p0, p1, p2, p3, p4, p5];
    FieldStep(an, [p0, p1, p2, p3, p4, p5], "&compact=", "compact", "1", x4 + "&downloaded=" + d3 + "&left=" + d4);
    assert [p0, p1, p2, p3, p4, p5] + [p6] == [p0, p1, p2, p3, p4, p5, p6];
    assert "&compact=1" == "&compact=" + "1";
  }

  /** The announce URL is the announce address, `?`, and the seven
      parameters `info_hash`, `peer_id`, `port`, `uploaded`, `downloaded`,
      `left`, `compact=1` in that order (for any encoder, by
      `AnnounceUrlLayout`), and a query parser reads them back as long as
      the escaped identifiers hold no `&`. */
  lemma AnnounceUrlQuery(announce: string, infohash: Bytes20, peerId: Bytes20, port: u16,
                         uploaded: u64, downloaded: u64, left: u64, enc: seq<byte> -> string)
    requires '&' !in enc(infohash) && '&' !in enc(peerId)
    ensures var params := AnnounceParams(infohash, peerId, port, uploaded, downloaded, left, enc);
      && AnnounceUrl(announce, infohash, peerId, port, uploaded, downloaded, left, enc) == announce + "?" + JoinQuery(params)
      && ParseQuery(JoinQuery(params)) == params
  {
    var params := AnnounceParams(infohash, peerId, port, uploaded, downloaded, left, enc);
    AnnounceParamsPlain(infohash, peerId, port, uploaded, downloaded, left, enc);
    ParseJoinQuery(params);
    AnnounceUrlLayout(announce, infohash, peerId, port, uploaded, downloaded, left, enc);
  }

  /** Whatever the encoder produces, the URL is the address, `?` and the
      seven pairs joined with `&`, in the order of the `format!` string. */
  lemma AnnounceUrlLayout(announce: string, infohash: Bytes20, peerId: Bytes20, port: u16,
                          uploaded: u64, downloaded: u64, left: u64, enc: seq<byte> -> string)
    ensures AnnounceUrl(announce, infohash, peerId, port, uploaded, downloaded, left, enc)
         == announce + "?" + JoinQuery(AnnounceParams(infohash, peerId, port, uploaded, downloaded, left, enc))
  {
    var params := AnnounceParams(infohash, peerId, port, uploaded, downloaded, left, enc);
    var parts := seq(|params|, i requires 0 <= i < |params| => params[i].0 + "=" + params[i].1);
    assert parts == ["info_hash" + "=" + enc(infohash), "peer_id" + "=" + enc(peerId), "port" + "=" + Decimal(port),
                     "uploaded" + "=" + Decimal(uploaded), "downloaded" + "=" + Decimal(downloaded),
                     "left" + "=" + Decimal(left), "compact" + "=" + "1"];
    FormatAsJoin(announce, enc(infohash), enc(peerId), Decimal(port), Decimal(uploaded), Decimal(downloaded), Decimal(left));
  }

  /** No announce key holds `&` or `=`, and no value holds `&`: the numbers
      are digits and the escaped identifiers are assumed free of `&`. */
  lemma AnnounceParamsPlain(infohash: Bytes20, peerId: Bytes20, port: u16,
                            uploaded: u64, downloaded: u64, left: u64, enc: seq<byte> -> string)
    requires '&' !in enc(infohash) && '&' !in enc(peerId)
    ensures var params := AnnounceParams(infohash, peerId, port, uploaded, downloaded, left, enc);
      forall i :: 0 <= i < |params| ==> '&' !in params[i].0 && '=' !in params[i].0 && '&' !in params[i].1
  {
    DecimalPlain(port);
    DecimalPlain(uploaded);
    DecimalPlain(downloaded);
    DecimalPlain(left);
    AnnounceKeysPlain();
  }

  /** The announce keys hold neither `&` nor `=`. */
  lemma AnnounceKeysPlain()
    ensures '&' !in "info_hash" && '=' !in "info_hash" && '&' !in "peer_id" && '=' !in "peer_id"
    ensures '&' !in "port" && '=' !in "port" && '&' !in "uploaded" && '=' !in "uploaded"
    ensures '&' !in "downloaded" && '=' !in "downloaded" && '&' !in "left" && '=' !in "left"
    ensures '&' !in "compact" && '=' !in "compact" && '&' !in "1"
  {
  }

  /** A decimal rendering holds no `&`. */
  lemma DecimalPlain(n: nat)
    ensures '&' !in Decimal(n)
  {
    DecimalRoundTrip(n);
    var d := Decimal(n);
    assert forall j :: 0 <= j < |d| ==> d[j] != '&';
  }

  // ---------------------------------------------------------------------
  // The compact decoding inside `query_http_tracker`, as written
  // ---------------------------------------------------------------------

  /** The closure of `query_http_tracker` applied to one chunk: it reads
      `c[33]`, `c[34]` and `c[35]`, which panic unless the chunk has at
      least 36 bytes. */
  function HttpChunk(c: seq<byte>): Result<SocketAddr, PeerListError>
  {
    if |c| <= 35 then Err(IndexOutOfBounds)
    else Ok(SocketAddr(Ipv4(c[0], c[1], c[2], c[33]), c[34] as int * 0x100 + c[35] as int))
  }

  /** `chunks(6)` mapped through `HttpChunk` and collected; a panic in any
      chunk ends the whole operation. */
  function HttpChunks(v: seq<byte>): Result<seq<SocketAddr>, PeerListError>
    decreases |v|
  {
    if v == [] then Ok([])
    else
      var n := if |v| < 6 then |v| else 6;
      match HttpChunk(v[..n])
      case Err(e) => Err(e)
      case Ok(p) =>
        match HttpChunks(v[n..])
        case Err(e) => Err(e)
        case Ok(ps) => Ok([p] + ps)
  }

  /** The peer decoding of `query_http_tracker` as it is written: it never
      yields a peer. */
  function HttpPeers(peers: seq<byte>): (r: Result<seq<SocketAddr>, PeerListError>)
    ensures r.Ok? ==> r.value == []
  {
    if |peers| % 6 != 0 then Err(InvalidCompactLength) else HttpChunks(peers)
  }

  /** Because every chunk has six bytes, `query_http_tracker` completes
      only for an empty peer string: any other length that is a multiple of
      6 panics on `c[33]`, and any length that is not is rejected. */
  lemma HttpPeersOnlyEmpty(peers: seq<byte>)
    ensures HttpPeers(peers).Ok? <==> peers == []
    ensures peers == [] ==> HttpPeers(peers) == Ok([])
    ensures |peers| % 6 != 0 ==> HttpPeers(peers) == Err(InvalidCompactLength)
    ensures |peers| % 6 == 0 && peers != [] ==> HttpPeers(peers) == Err(IndexOutOfBounds)
  {
  }

  /** The decoding evidently intended at tracker.rs:103-104, reading
      `c[3]`, `c[4]` and `c[5]`. */
  function HttpPeersIntended(peers: seq<byte>): Result<seq<SocketAddr>, PeerListError>
  {
    if |peers| % 6 != 0 then Err(InvalidCompactLength) else Ok(DecodeCompact(peers))
  }

  /** The intended decoding agrees with `visit_bytes` on every input, so it
      inverts the compact encoding. */
  lemma HttpPeersIntendedIsVisitBytes(peers: seq<byte>, list: seq<SocketAddr>)
    ensures HttpPeersIntended(peers) == VisitBytes(peers)
    ensures HttpPeersIntended(EncodeCompact(list)) == Ok(list)
  {
    CompactRoundTrip(list);
  }
}
