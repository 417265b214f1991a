/** `parse_magnet_link` (`src/Torrentfile/magnet.rs`), after the magnet URI
    format of BEP 9: the info hash from the first `xt=urn:btih:` parameter,
    40 hex digits or 32 base32 characters; the trackers from every `tr`;
    the display name from the first `dn`. `Url::parse` and its
    percent-decoding are outside the model: the input is the parsed URL,
    its scheme and its query pairs in order. */
module Magnet {
  import opened Bytes
  import opened Wrappers
  import opened AsciiText
  import opened Rfc4648

  /** A parsed URL: its scheme and its decoded query pairs, in order. */
  datatype MagnetUrl = MagnetUrl(scheme: string, query: seq<(string, string)>)

  datatype MagnetLink = MagnetLink(infohash: Bytes20, trackers: seq<string>, displayName: Option<string>)

  datatype MagnetError =
    | InvalidScheme       // the scheme is not `magnet`
    | MissingXt           // no `xt` parameter
    | NotBtih             // `xt` does not start with `urn:btih:`
    | BadBtihLength       // the payload is neither 40 nor 32 bytes long
    | InvalidHex          // `hex::decode` failed
    | InvalidBase32       // `BASE32.decode` failed
    | WrongDecodedLength  // the payload did not decode to 20 bytes

  const BtihPrefix: string := "urn:btih:"

  /** `query_pairs().find(|(k, _)| k == key)`, keeping the value. */
  function Find(pairs: seq<(string, string)>, key: string): Option<string>
  {
    if pairs == [] then None
    else if pairs[0].0 == key then Some(pairs[0].1)
    else Find(pairs[1..], key)
  }

  /** `query_pairs().filter(|(k, _)| k == key).map(|(_, v)| v)`. */
  function FilterValues(pairs: seq<(string, string)>, key: string): seq<string>
  {
    if pairs == [] then []
    else (if pairs[0].0 == key then [pairs[0].1] else []) + FilterValues(pairs[1..], key)
  }

  /** `str::strip_prefix`. */
  function StripPrefix(s: string, prefix: string): (r: Option<string>)
    ensures r.Some? <==> |prefix| <= |s| && s[..|prefix|] == prefix
    ensures r.Some? ==> prefix + r.value == s
  {
    if |prefix| <= |s| && s[..|prefix|] == prefix then Some(s[|prefix|..]) else None
  }

  /** The decoding of a btih payload: 40 bytes are hex after lower-casing,
      32 bytes are base32 after upper-casing, any other length an error. */
  function DecodeBtih(payload: string): (r: Result<seq<byte>, MagnetError>)
    ensures r == Err(BadBtihLength) <==> Utf8Len(payload) != 40 && Utf8Len(payload) != 32
    ensures r.Err? ==> r.error in {BadBtihLength, InvalidHex, InvalidBase32}
    ensures r == Err(InvalidHex) ==> Utf8Len(payload) == 40
    ensures r == Err(InvalidBase32) ==> Utf8Len(payload) == 32
  {
    if Utf8Len(payload) == 40 then
      match HexDecode(AsciiLower(payload))
      case None => Err(InvalidHex)
      case Some(d) => Ok(d)
    else if Utf8Len(payload) == 32 then
      match Base32Decode(AsciiUpper(payload))
      case None => Err(InvalidBase32)
      case Some(d) => Ok(d)
    else Err(BadBtihLength)
  }

  /** The btih payload of a magnet URL: what follows `urn:btih:` in its
      first `xt` parameter, if it has one. */
  function BtihPayload(url: MagnetUrl): (p: Option<string>)
    ensures p.Some? <==>
      url.scheme == "magnet" && Find(url.query, "xt").Some?
      && |BtihPrefix| <= |Find(url.query, "xt").value| && Find(url.query, "xt").value[..|BtihPrefix|] == BtihPrefix
    ensures p.Some? ==> BtihPrefix + p.value == Find(url.query, "xt").value
  {
    if url.scheme != "magnet" then None
    else match Find(url.query, "xt")
      case None => None
      case Some(xt) => StripPrefix(xt, BtihPrefix)
  }

  /** `parse_magnet_link`. Every error is stated by the condition that
      produces it, and the parse succeeds exactly when the payload decodes
      to 20 bytes. */
  function ParseMagnet(url: MagnetUrl): (r: Result<MagnetLink, MagnetError>)
    ensures r == Err(InvalidScheme) <==> url.scheme != "magnet"
    ensures r == Err(MissingXt) <==> url.scheme == "magnet" && Find(url.query, "xt").None?
    ensures r == Err(NotBtih) <==>
      url.scheme == "magnet" && Find(url.query, "xt").Some? && StripPrefix(Find(url.query, "xt").value, BtihPrefix).None?
    ensures r == Err(BadBtihLength) <==>
      BtihPayload(url).Some? && Utf8Len(BtihPayload(url).value) != 40 && Utf8Len(BtihPayload(url).value) != 32
    ensures r == Err(InvalidHex) <==>
      BtihPayload(url).Some? && Utf8Len(BtihPayload(url).value) == 40 && HexDecode(AsciiLower(BtihPayload(url).value)).None?
    ensures r == Err(InvalidBase32) <==>
      BtihPayload(url).Some? && Utf8Len(BtihPayload(url).value) == 32 && Base32Decode(AsciiUpper(BtihPayload(url).value)).None?
    ensures r == Err(WrongDecodedLength) <==>
      BtihPayload(url).Some? && DecodeBtih(BtihPayload(url).value).Ok? && |DecodeBtih(BtihPayload(url).value).value| != 20
    ensures r.Ok? <==>
      BtihPayload(url).Some? && DecodeBtih(BtihPayload(url).value).Ok? && |DecodeBtih(BtihPayload(url).value).value| == 20
    ensures r.Ok? ==>
      var xt := Find(url.query, "xt");
      && xt.Some? && |BtihPrefix| <= |xt.value| && xt.value[..|BtihPrefix|] == BtihPrefix
      && DecodeBtih(xt.value[|BtihPrefix|..]) == Ok(r.value.infohash)
      && r.value.trackers == FilterValues(url.query, "tr")
      && r.value.displayName == Find(url.query, "dn")
  {
    if url.scheme != "magnet" then Err(InvalidScheme)
    else match Find(url.query, "xt")
      case None => Err(MissingXt)
      case Some(xt) =>
        match StripPrefix(xt, BtihPrefix)
        case None => Err(NotBtih)
        case Some(payload) =>
          match DecodeBtih(payload)
          case Err(e) => Err(e)
          case Ok(d) =>
            if |d| != 20 then Err(WrongDecodedLength)
            else Ok(MagnetLink(d, FilterValues(url.query, "tr"), Find(url.query, "dn")))
  }

  // ---------------------------------------------------------------------
  // The query pairs
  // ---------------------------------------------------------------------

  /** `Find` returns the value of the first pair with the key, and nothing
      exactly when no pair has it. */
  lemma {:induction false} FindMeaning(pairs: seq<(string, string)>, key: string)
    ensures Find(pairs, key).None? <==> forall i :: 0 <= i < |pairs| ==> pairs[i].0 != key
    ensures Find(pairs, key).Some? ==>
      exists i :: (0 <= i < |pairs| && pairs[i] == (key, Find(pairs, key).value)
                   && forall j :: 0 <= j < i ==> pairs[j].0 != key)
  {
    if pairs != [] {
      FindMeaning(pairs[1..], key);
      if pairs[0].0 != key {
        assert forall i :: 1 <= i < |pairs| ==> pairs[i] == pairs[1..][i - 1];
        if Find(pairs, key).Some? {
          var i :| 0 <= i < |pairs[1..]| && pairs[1..][i] == (key, Find(pairs, key).value)
            && forall j :: 0 <= j < i ==> pairs[1..][j].0 != key;
          assert pairs[i + 1] == (key, Find(pairs, key).value);
          assert forall j :: 0 <= j < i + 1 ==> pairs[j].0 != key by {
            forall j | 1 <= j < i + 1 ensures pairs[j].0 != key {
              assert pairs[j] == pairs[1..][j - 1];
            }
          }
        }
      }
    }
  }

  /** `FilterValues` keeps the values of the pairs with the key, in their
      order: it distributes over concatenation and picks out one pair
      exactly when its key matches. */
  lemma {:induction false} FilterValuesAppend(a: seq<(string, string)>, b: seq<(string, string)>, key: string)
    ensures FilterValues(a + b, key) == FilterValues(a, key) + FilterValues(b, key)
  {
    if a == [] {
      assert a + b == b;
    } else {
      var ab := a + b;
      assert ab[0] == a[0] && ab[1..] == a[1..] + b;
      FilterValuesAppend(a[1..], b, key);
    }
  }

  lemma FilterValuesOne(k: string, v: string, key: string)
    ensures FilterValues([(k, v)], key) == if k == key then [v] else []
  {
    assert [(k, v)][1..] == [];
  }

  /** A value comes out of `FilterValues` exactly when some pair carries it
      under the key. */
  lemma {:induction false} FilterValuesMembers(pairs: seq<(string, string)>, key: string, v: string)
    ensures v in FilterValues(pairs, key) <==> (key, v) in pairs
  {
    if pairs != [] {
      FilterValuesMembers(pairs[1..], key, v);
      assert pairs == [pairs[0]] + pairs[1..];
    }
  }

  // ---------------------------------------------------------------------
  // The info hash
  // ---------------------------------------------------------------------

  /** The payload's letter case does not matter. */
  lemma BtihCaseInsensitive(payload: string)
    ensures DecodeBtih(AsciiLower(payload)) == DecodeBtih(payload)
    ensures DecodeBtih(AsciiUpper(payload)) == DecodeBtih(payload)
  {
    CaseMapping(payload);
  }

  /** Every 40-byte payload that decodes gives exactly 20 bytes, so the
      length check at magnet.rs:38 never rejects a hex payload. */
  lemma HexBtihIs20Bytes(payload: string)
    requires Utf8Len(payload) == 40 && DecodeBtih(payload).Ok?
    ensures |DecodeBtih(payload).value| == 20
  {
    var low := AsciiLower(payload);
    HexDecodeMeaning(low);
    CaseMapping(payload);
    Utf8LenAscii(payload);
    Utf8LenAscii(low);
    assert IsAscii(low);
    assert IsAscii(payload);
  }

  /** A string that base32 decodes is ASCII: any other character is
      neither a symbol nor padding. */
  lemma Base32Ascii(s: string)
    requires Base32Decode(s).Some?
    ensures IsAscii(s)
  {
    forall i | 0 <= i < |s| ensures s[i] as int < 0x80 {
      if s[i] as int >= 0x80 {
        Base32RejectsBadInput(s, i);
      }
    }
  }

  /** A 32-byte payload that decodes gives at most 20 bytes, and exactly 20
      if and only if it holds no padding. */
  lemma Base32BtihLength(payload: string)
    requires Utf8Len(payload) == 32 && DecodeBtih(payload).Ok?
    ensures |DecodeBtih(payload).value| <= 20
    ensures |DecodeBtih(payload).value| == 20 <==> '=' !in payload
  {
    var up := AsciiUpper(payload);
    Base32Ascii(up);
    CaseMapping(payload);
    Utf8LenAscii(payload);
    assert IsAscii(payload);
    Base32DecodeLength(up);
    assert '=' in up <==> '=' in payload by {
      assert forall i :: 0 <= i < |payload| ==> (up[i] == '=' <==> payload[i] == '=');
    }
  }

  /** A 40-byte payload decodes exactly when every character is a hex digit
      once lower-cased, and then to 20 bytes; a 32-byte one that decodes
      gives at most 20 bytes, exactly 20 when it holds no padding. */
  lemma DecodeBtihMeaning(payload: string)
    ensures Utf8Len(payload) == 40 ==>
      (DecodeBtih(payload).Ok? <==> forall i :: 0 <= i < |payload| ==> IsHexDigit(LowerChar(payload[i])))
    ensures Utf8Len(payload) == 40 && DecodeBtih(payload).Ok? ==> |DecodeBtih(payload).value| == 20
    ensures Utf8Len(payload) == 32 && DecodeBtih(payload).Ok? ==>
      |DecodeBtih(payload).value| <= 20 && (|DecodeBtih(payload).value| == 20 <==> '=' !in payload)
  {
    if Utf8Len(payload) == 40 {
      var low := AsciiLower(payload);
      HexDecodeMeaning(low);
      assert forall i :: 0 <= i < |payload| ==> low[i] == LowerChar(payload[i]);
      if forall i :: 0 <= i < |payload| ==> IsHexDigit(LowerChar(payload[i])) {
        CaseMapping(payload);
        assert forall i :: 0 <= i < |payload| ==> IsHexDigit(low[i]);
        assert forall i :: 0 <= i < |low| ==> low[i] as int < 0x80;
        assert IsAscii(payload);
        Utf8LenAscii(payload);
      }
      if DecodeBtih(payload).Ok? {
        HexBtihIs20Bytes(payload);
      }
    }
    if Utf8Len(payload) == 32 && DecodeBtih(payload).Ok? {
      Base32BtihLength(payload);
    }
  }

  /** A full block of `A`s, which decodes to five zero bytes. */
  const FullA: string := seq(8, _ => 'A')

  /** Seven `A`s and one `=`, which decode to four zero bytes. */
  const LastA: string := seq(7, _ => 'A') + "="

  /** A padded base32 payload: 31 `A`s and one `=`. */
  const PaddedPayload: string := FullA + (FullA + (FullA + LastA))

  /** The padded payload decodes, to 19 bytes, so on it `parse_magnet_link`
      reaches the length check at magnet.rs:38 and fails there. */
  lemma PaddedPayloadFailsLengthCheck(query: seq<(string, string)>)
    ensures DecodeBtih(PaddedPayload) == Ok(Zeros(19))
    ensures ParseMagnet(MagnetUrl("magnet", [("xt", BtihPrefix + PaddedPayload)] + query)) == Err(WrongDecodedLength)
  {
    PaddedPayloadDecodes();
    var xt := BtihPrefix + PaddedPayload;
    var url := MagnetUrl("magnet", [("xt", xt)] + query);
    assert url.query[0] == ("xt", xt);
    assert Find(url.query, "xt") == Some(xt);
    assert xt[..|BtihPrefix|] == BtihPrefix;
    assert StripPrefix(xt, BtihPrefix) == Some(PaddedPayload);
  }

  lemma PaddedPayloadDecodes()
    ensures DecodeBtih(PaddedPayload) == Ok(Zeros(19))
  {
    PaddedPayloadText();
    PaddedPayloadBase32();
  }

  lemma PaddedPayloadText()
    ensures Utf8Len(PaddedPayload) == 32
    ensures AsciiUpper(PaddedPayload) == PaddedPayload
  {
    var p := PaddedPayload;
    assert |p| == 32;
    assert forall i :: 0 <= i < 32 ==> p[i] == 'A' || p[i] == '=';
    assert IsAscii(p);
    Utf8LenAscii(p);
    var up := AsciiUpper(p);
    assert forall i :: 0 <= i < 32 ==> up[i] == p[i];
  }

  lemma PaddedPayloadBase32()
    ensures Base32Decode(PaddedPayload) == Some(Zeros(19))
  {
    LastBlockOfA();
    assert Base32Decode([]) == Some([]);
    Base32DecodeCons(LastA, [], Zeros(4), []);
    assert LastA + [] == LastA && Zeros(4) + [] == Zeros(4);
    FullBlockThen(LastA, 4);
    FullBlockThen(FullA + LastA, 9);
    FullBlockThen(FullA + (FullA + LastA), 14);
  }

  /** A block of `A`s in front adds five zero bytes. */
  lemma FullBlockThen(rest: string, n: nat)
    requires Base32Decode(rest) == Some(Zeros(n))
    ensures Base32Decode(FullA + rest) == Some(Zeros(n + 5))
  {
    FullBlockOfA();
    Base32DecodeCons(FullA, rest, Zeros(5), Zeros(n));
    assert Zeros(5) + Zeros(n) == Zeros(n + 5);
  }

  lemma FullBlockOfA()
    ensures DecodeBlock(FullA) == Some(Zeros(5))
  {
    var block := FullA;
    assert block[7] == 'A';
    assert PadCount(block) == 0;
    assert block[..8] == block;
    assert forall i :: 0 <= i < 8 ==> B32Value(block[i]) == Some(0);
    var vs := Values(block).value;
    assert forall i :: 0 <= i < 8 ==> vs[i] == 0;
    assert vs == ZeroSymbols(8);
    assert ZeroSymbols(8) + ZeroSymbols(0) == ZeroSymbols(8);
    assert Pack(ZeroSymbols(8)) == Zeros(5);
    assert Zeros(5)[..5] == Zeros(5);
  }

  lemma LastBlockOfA()
    ensures DecodeBlock(LastA) == Some(Zeros(4))
  {
    var block := LastA;
    var syms := seq(7, _ => 'A');
    assert block[..7] == syms;
    assert syms[6] == 'A';
    assert PadCount(syms) == 0;
    assert PadCount(block) == 1;
    assert forall i :: 0 <= i < 7 ==> B32Value(syms[i]) == Some(0);
    var vs := Values(syms).value;
    assert forall i :: 0 <= i < 7 ==> vs[i] == 0;
    assert vs == ZeroSymbols(7);
    assert ZeroSymbols(7) + ZeroSymbols(1) == ZeroSymbols(8);
    assert Pack(ZeroSymbols(8)) == Zeros(5);
    assert Zeros(5)[..4] == Zeros(4);
  }

  // ---------------------------------------------------------------------
  // Round trips
  // ---------------------------------------------------------------------

  /** The `tr` pairs of a list of trackers. */
  function TrackerPairs(trackers: seq<string>): (q: seq<(string, string)>)
    ensures |q| == |trackers|
  {
    seq(|trackers|, i requires 0 <= i < |trackers| => ("tr", trackers[i]))
  }

  /** The `dn` pair of a display name, if any. */
  function NamePairs(name: Option<string>): seq<(string, string)>
  {
    if name.Some? then [("dn", name.value)] else []
  }

  lemma {:induction false} TrackerPairsValues(trackers: seq<string>)
    ensures FilterValues(TrackerPairs(trackers), "tr") == trackers
    ensures Find(TrackerPairs(trackers), "dn") == None
    ensures Find(TrackerPairs(trackers), "xt") == None
  {
    if trackers != [] {
      TrackerPairsValues(trackers[1..]);
      assert TrackerPairs(trackers)[1..] == TrackerPairs(trackers[1..]);
      assert [trackers[0]] + trackers[1..] == trackers;
    }
  }

  /** The four ways of writing an info hash that `parse_magnet_link`
      accepts without loss: hex in either case, base32 in either case. */
  predicate EncodesHash(payload: string, h: Bytes20)
  {
    payload == HexEncode(h) || payload == AsciiUpper(HexEncode(h))
    || payload == Base32Encode(h) || payload == AsciiLower(Base32Encode(h))
  }

  lemma EncodedBtih(payload: string, h: Bytes20)
    requires EncodesHash(payload, h)
    ensures DecodeBtih(payload) == Ok(h)
  {
    HexBtih(h);
    Base32Btih(h);
    BtihCaseInsensitive(HexEncode(h));
    BtihCaseInsensitive(Base32Encode(h));
  }

  lemma HexBtih(h: Bytes20)
    ensures DecodeBtih(HexEncode(h)) == Ok(h)
  {
    var hex := HexEncode(h);
    HexRoundTrip(h);
    assert IsAscii(hex);
    Utf8LenAscii(hex);
    var low := AsciiLower(hex);
    assert forall i :: 0 <= i < |hex| ==> low[i] == hex[i];
    assert low == hex;
  }

  lemma Base32Btih(h: Bytes20)
    ensures DecodeBtih(Base32Encode(h)) == Ok(h)
  {
    Base32RoundTrip(h);
    Base32EncodeAlphabet(h);
    UpperAlphabet(Base32Encode(h));
  }

  /** Upper-case letters and digits are ASCII and unchanged by upper-casing. */
  lemma UpperAlphabet(s: string)
    requires forall i :: 0 <= i < |s| ==> 'A' <= s[i] <= 'Z' || '2' <= s[i] <= '7'
    ensures Utf8Len(s) == |s| && AsciiUpper(s) == s
  {
    assert IsAscii(s);
    Utf8LenAscii(s);
    var up := AsciiUpper(s);
    assert forall i :: 0 <= i < |s| ==> up[i] == s[i];
  }

  /** A magnet link built from an info hash, its trackers and its display
      name parses back to exactly those. */
  lemma MagnetRoundTrip(h: Bytes20, payload: string, trackers: seq<string>, name: Option<string>)
    requires EncodesHash(payload, h)
    ensures ParseMagnet(MagnetUrl("magnet", [("xt", BtihPrefix + payload)] + TrackerPairs(trackers) + NamePairs(name)))
         == Ok(MagnetLink(h, trackers, name))
  {
    var xt := BtihPrefix + payload;
    var rest := TrackerPairs(trackers) + NamePairs(name);
    var query := [("xt", xt)] + rest;
    assert [("xt", xt)] + TrackerPairs(trackers) + NamePairs(name) == query;
    assert query[0] == ("xt", xt) && query[1..] == rest;
    assert Find(query, "xt") == Some(xt);
    assert xt[..|BtihPrefix|] == BtihPrefix;
    assert StripPrefix(xt, BtihPrefix) == Some(payload);
    EncodedBtih(payload, h);
    QueryRest(trackers, name);
    assert FilterValues(query, "tr") == trackers;
    assert Find(query, "dn") == name;
  }

  /** The pairs after `xt` carry the trackers and the name. */
  lemma QueryRest(trackers: seq<string>, name: Option<string>)
    ensures FilterValues(TrackerPairs(trackers) + NamePairs(name), "tr") == trackers
    ensures Find(TrackerPairs(trackers) + NamePairs(name), "dn") == name
  {
    TrackerPairsValues(trackers);
    FilterValuesAppend(TrackerPairs(trackers), NamePairs(name), "tr");
    FindAppend(TrackerPairs(trackers), NamePairs(name), "dn");
    if name.Some? {
      FilterValuesOne("dn", name.value, "tr");
      assert NamePairs(name)[0] == ("dn", name.value);
    } else {
      assert FilterValues([], "tr") == [];
    }
  }

  lemma {:induction false} FindAppend(a: seq<(string, string)>, b: seq<(string, string)>, key: string)
    requires Find(a, key).None?
    ensures Find(a + b, key) == Find(b, key)
  {
    if a == [] {
      assert a + b == b;
    } else {
      assert (a + b)[1..] == a[1..] + b;
      FindAppend(a[1..], b, key);
    }
  }
}
