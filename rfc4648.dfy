/** The two RFC 4648 codecs the magnet parser calls: `hex::decode`
    (section 8, both letter cases accepted) and `data_encoding::BASE32`
    (section 6: the alphabet `A`-`Z`, `2`-`7`, `=` padding, input a whole
    number of 8-character blocks, and the unused bits of a padded block
    required to be zero). Both work on the bytes of a string; a character
    outside ASCII is never a valid symbol, so the model reads characters. */
module Rfc4648 {
  import opened Bytes
  import opened Wrappers

  // ---------------------------------------------------------------------
  // Hex
  // ---------------------------------------------------------------------

  function HexValue(c: char): (r: Option<nat>)
    ensures r.Some? ==> r.value < 16
  {
    if '0' <= c <= '9' then Some(c as int - '0' as int)
    else if 'a' <= c <= 'f' then Some(c as int - 'a' as int + 10)
    else if 'A' <= c <= 'F' then Some(c as int - 'A' as int + 10)
    else None
  }

  predicate IsHexDigit(c: char)
  {
    HexValue(c).Some?
  }

  /** The lower-case digit of a nibble. */
  function HexDigit(v: nat): (c: char)
    requires v < 16
    ensures HexValue(c) == Some(v)
    ensures '0' <= c <= '9' || 'a' <= c <= 'f'
  {
    if v < 10 then ('0' as int + v) as char else ('a' as int + v - 10) as char
  }

  /** `hex::decode`: an odd number of characters, or any character that is
      not a hex digit, is an error; otherwise each pair of digits is one
      byte, high nibble first. */
  function HexDecode(s: string): (r: Option<seq<byte>>)
    ensures r.Some? ==> |s| % 2 == 0 && |r.value| == |s| / 2
  {
    if |s| % 2 == 0 && forall i :: 0 <= i < |s| ==> IsHexDigit(s[i]) then
      Some(seq(|s| / 2, i requires 0 <= i < |s| / 2 => HexValue(s[2 * i]).value * 16 + HexValue(s[2 * i + 1]).value))
    else None
  }

  /** Lower-case hex, two digits per byte. */
  function HexEncode(b: seq<byte>): (s: string)
    ensures |s| == 2 * |b|
  {
    seq(2 * |b|, i requires 0 <= i < 2 * |b| =>
      if i % 2 == 0 then HexDigit(b[i / 2] as int / 16) else HexDigit(b[i / 2] as int % 16))
  }

  /** Hex decoding inverts hex encoding, whose digits are all lower case. */
  lemma HexRoundTrip(b: seq<byte>)
    ensures HexDecode(HexEncode(b)) == Some(b)
    ensures forall i :: 0 <= i < |HexEncode(b)| ==> '0' <= HexEncode(b)[i] <= '9' || 'a' <= HexEncode(b)[i] <= 'f'
  {
    var s := HexEncode(b);
    HexEncodeDigits(b);
    assert |s| % 2 == 0 && |s| / 2 == |b|;
    assert HexDecode(s).Some?;
    var d := HexDecode(s).value;
    assert |d| == |b|;
    forall i | 0 <= i < |b|
      ensures d[i] == b[i]
    {
      HexPairAt(b, i);
    }
    assert d == b;
  }

  /** Every character of an encoding is a lower-case hex digit. */
  lemma HexEncodeDigits(b: seq<byte>)
    ensures forall i :: 0 <= i < |HexEncode(b)| ==>
      IsHexDigit(HexEncode(b)[i]) && ('0' <= HexEncode(b)[i] <= '9' || 'a' <= HexEncode(b)[i] <= 'f')
  {
    var s := HexEncode(b);
    forall i | 0 <= i < |s|
      ensures IsHexDigit(s[i]) && ('0' <= s[i] <= '9' || 'a' <= s[i] <= 'f')
    {
      var v := if i % 2 == 0 then b[i / 2] as int / 16 else b[i / 2] as int % 16;
      assert s[i] == HexDigit(v);
    }
  }

  lemma HexPairAt(b: seq<byte>, i: nat)
    requires i < |b|
    ensures HexValue(HexEncode(b)[2 * i]).value * 16 + HexValue(HexEncode(b)[2 * i + 1]).value == b[i] as int
  {
    var s := HexEncode(b);
    assert (2 * i) / 2 == i && (2 * i) % 2 == 0;
    assert (2 * i + 1) / 2 == i && (2 * i + 1) % 2 == 1;
    assert s[2 * i] == HexDigit(b[i] as int / 16);
    assert s[2 * i + 1] == HexDigit(b[i] as int % 16);
  }

  /** Decoding fails exactly on an odd length or a non-digit, and yields
      one byte per pair of digits. */
  lemma HexDecodeMeaning(s: string)
    ensures HexDecode(s).Some? <==> |s| % 2 == 0 && forall i :: 0 <= i < |s| ==> IsHexDigit(s[i])
    ensures HexDecode(s).Some? ==> |HexDecode(s).value| == |s| / 2
    ensures HexDecode(s).Some? ==> forall i :: 0 <= i < |s| ==> s[i] as int < 0x80
  {
  }

  // ---------------------------------------------------------------------
  // Base32
  // ---------------------------------------------------------------------

  function B32Value(c: char): (r: Option<nat>)
    ensures r.Some? ==> r.value < 32
  {
    if 'A' <= c <= 'Z' then Some(c as int - 'A' as int)
    else if '2' <= c <= '7' then Some(c as int - '2' as int + 26)
    else None
  }

  function B32Symbol(v: nat): (c: char)
    requires v < 32
    ensures B32Value(c) == Some(v)
    ensures 'A' <= c <= 'Z' || '2' <= c <= '7'
  {
    if v < 26 then ('A' as int + v) as char else ('2' as int + v - 26) as char
  }

  predicate IsSymbols(v: seq<int>)
  {
    forall i :: 0 <= i < |v| ==> 0 <= v[i] < 32
  }

  /** The values of a run of symbols, or `None` if any character is not
      one. */
  function Values(s: string): (r: Option<seq<int>>)
    ensures r.Some? ==> |r.value| == |s| && IsSymbols(r.value)
  {
    if forall i :: 0 <= i < |s| ==> B32Value(s[i]).Some? then
      Some(seq(|s|, i requires 0 <= i < |s| => B32Value(s[i]).value))
    else None
  }

  /** Forty bits, eight 5-bit symbols, as five bytes. */
  function Pack(v: seq<int>): (b: seq<byte>)
    requires |v| == 8 && IsSymbols(v)
    ensures |b| == 5
  {
    [v[0] * 8 + v[1] / 4,
     (v[1] % 4) * 64 + v[2] * 2 + v[3] / 16,
     (v[3] % 16) * 16 + v[4] / 2,
     (v[4] % 2) * 128 + v[5] * 4 + v[6] / 8,
     (v[6] % 8) * 32 + v[7]]
  }

  /** Five bytes as eight 5-bit symbols. */
  function Unpack(b: seq<byte>): (v: seq<int>)
    requires |b| == 5
    ensures |v| == 8 && IsSymbols(v)
  {
    [b[0] / 8,
     (b[0] % 8) * 4 + b[1] / 64,
     (b[1] / 2) % 32,
     (b[1] % 2) * 16 + b[2] / 16,
     (b[2] % 16) * 2 + b[3] / 128,
     (b[3] / 4) % 32,
     (b[3] % 4) * 8 + b[4] / 32,
     b[4] % 32]
  }

  /** Packing inverts unpacking. */
  lemma PackUnpack(b: seq<byte>)
    requires |b| == 5
    ensures Pack(Unpack(b)) == b
  {
    Byte0(b[0], b[1]);
    Byte1(b[1], b[2]);
    Byte2(b[2], b[3]);
    Byte3(b[3], b[4]);
    Byte4(b[4]);
  }

  lemma Byte0(x: int, y: int)
    requires 0 <= x < 256 && 0 <= y < 256
    ensures (x / 8) * 8 + ((x % 8) * 4 + y / 64) / 4 == x
    ensures ((x % 8) * 4 + y / 64) % 4 == y / 64
  {
    var a, c := x % 8, y / 64;
    assert (a * 4 + c) / 4 == a;
    assert (a * 4 + c) % 4 == c;
  }
  lemma Byte1(y: int, z: int)
    requires 0 <= y < 256 && 0 <= z < 256
    ensures (y / 64) * 64 + ((y / 2) % 32) * 2 + ((y % 2) * 16 + z / 16) / 16 == y
    ensures ((y % 2) * 16 + z / 16) % 16 == z / 16
  {
    var c := z / 16;
    assert ((y % 2) * 16 + c) / 16 == y % 2;
    assert ((y % 2) * 16 + c) % 16 == c;
    assert y / 2 == (y / 64) * 32 + (y / 2) % 32;
  }
  lemma Byte2(z: int, w: int)
    requires 0 <= z < 256 && 0 <= w < 256
    ensures (z / 16) * 16 + ((z % 16) * 2 + w / 128) / 2 == z
    ensures ((z % 16) * 2 + w / 128) % 2 == w / 128
  {
    var c := w / 128;
    assert ((z % 16) * 2 + c) / 2 == z % 16;
    assert ((z % 16) * 2 + c) % 2 == c;
  }
  lemma Byte3(w: int, u: int)
    requires 0 <= w < 256 && 0 <= u < 256
    ensures (w / 128) * 128 + ((w / 4) % 32) * 4 + ((w % 4) * 8 + u / 32) / 8 == w
    ensures ((w % 4) * 8 + u / 32) % 8 == u / 32
  {
    var c := u / 32;
    assert ((w % 4) * 8 + c) / 8 == w % 4;
    assert ((w % 4) * 8 + c) % 8 == c;
    assert w / 4 == (w / 128) * 32 + (w / 4) % 32;
  }
  lemma Byte4(u: int)
    requires 0 <= u < 256
    ensures (u / 32) * 32 + u % 32 == u
  {
  }

  /** The number of `=` characters at the end of a block. */
  function PadCount(block: string): (n: nat)
    ensures n <= |block|
    ensures forall i :: |block| - n <= i < |block| ==> block[i] == '='
    ensures n < |block| ==> block[|block| - n - 1] != '='
  {
    if block == [] || block[|block| - 1] != '=' then 0 else 1 + PadCount(block[..|block| - 1])
  }

  /** The bytes a block of `n` symbols, the rest padding, carries. */
  function OutLen(n: nat): nat
  {
    if n == 2 then 1 else if n == 4 then 2 else if n == 5 then 3 else if n == 7 then 4 else 5
  }

  /** Whether a block with `n` symbols before its padding is well formed. */
  predicate ValidSymbolCount(n: nat)
  {
    n == 2 || n == 4 || n == 5 || n == 7 || n == 8
  }

  function ZeroSymbols(n: nat): (z: seq<int>)
    ensures |z| == n && IsSymbols(z)
  {
    seq(n, _ => 0)
  }

  /** One 8-character block: its symbols before the padding, which must
      number 8, 7, 5, 4 or 2, decode to 5, 4, 3, 2 or 1 bytes, and the bits
      left over must be zero. */
  function DecodeBlock(block: string): (r: Option<seq<byte>>)
    requires |block| == 8
    ensures r.Some? ==> |r.value| == OutLen(8 - PadCount(block)) <= 5
    ensures r.Some? ==> ValidSymbolCount(8 - PadCount(block))
    ensures r.Some? ==> (|r.value| == 5 <==> PadCount(block) == 0)
  {
    var n := 8 - PadCount(block);
    if !ValidSymbolCount(n) then None
    else match Values(block[..n])
      case None => None
      case Some(vs) =>
        var bytes := Pack(vs + ZeroSymbols(8 - n));
        var k := OutLen(n);
        if forall j :: k <= j < 5 ==> bytes[j] == 0 then Some(bytes[..k]) else None
  }

  /** `BASE32.decode`: the input must be a whole number of blocks, each
      decoded on its own. */
  function Base32Decode(s: string): (r: Option<seq<byte>>)
    ensures r.Some? ==> |s| % 8 == 0 && |r.value| <= |s| / 8 * 5
    decreases |s|
  {
    if |s| % 8 != 0 then None
    else if s == [] then Some([])
    else
      var first, rest := DecodeBlock(s[..8]), Base32Decode(s[8..]);
      if first.Some? && rest.Some? then Some(first.value + rest.value) else None
  }

  /** The eight symbols of one 5-byte group. */
  function EncodeGroup(g: seq<byte>): (s: string)
    requires |g| == 5
    ensures |s| == 8
    ensures forall i :: 0 <= i < 8 ==> 'A' <= s[i] <= 'Z' || '2' <= s[i] <= '7'
  {
    var v := Unpack(g);
    seq(8, i requires 0 <= i < 8 => B32Symbol(v[i]))
  }

  /** Padded base32 of a whole number of 5-byte groups: no padding at all. */
  function Base32Encode(b: seq<byte>): (s: string)
    requires |b| % 5 == 0
    ensures |s| == |b| / 5 * 8
    decreases |b|
  {
    if b == [] then [] else EncodeGroup(b[..5]) + Base32Encode(b[5..])
  }

  /** A character that is neither a symbol nor `=` makes decoding fail,
      as does a length that is not a multiple of 8. */
  lemma {:induction false} Base32RejectsBadInput(s: string, i: nat)
    requires i < |s| && B32Value(s[i]).None? && s[i] != '='
    ensures Base32Decode(s) == None
    decreases |s|
  {
    if |s| % 8 == 0 && s != [] {
      if i < 8 {
        var block := s[..8];
        var n := 8 - PadCount(block);
        assert block[i] == s[i];
        if ValidSymbolCount(n) {
          if i < n {
            assert block[..n][i] == s[i];
          }
        }
      } else {
        assert s[8..][i - 8] == s[i];
        Base32RejectsBadInput(s[8..], i - 8);
      }
    }
  }

  /** What a successful decoding yields: at most five bytes per block, and
      exactly five per block, `|s| / 8 * 5` in all, if and only if no
      character is padding. */
  lemma {:induction false} Base32DecodeLength(s: string)
    requires Base32Decode(s).Some?
    ensures |s| % 8 == 0
    ensures |Base32Decode(s).value| <= |s| / 8 * 5
    ensures |Base32Decode(s).value| == |s| / 8 * 5 <==> '=' !in s
    decreases |s|
  {
    if s != [] {
      Base32DecodeLength(s[8..]);
      var block := s[..8];
      assert s == block + s[8..];
      BlockLength(block);
    }
  }

  /** A block that decodes gives at most five bytes, and five exactly when
      it holds no padding. */
  lemma BlockLength(block: string)
    requires |block| == 8 && DecodeBlock(block).Some?
    ensures |DecodeBlock(block).value| <= 5
    ensures |DecodeBlock(block).value| == 5 <==> '=' !in block
  {
    if PadCount(block) > 0 {
      assert block[7] == '=';
    } else {
      assert forall j :: 0 <= j < 8 ==> B32Value(block[..8][j]).Some?;
      assert block[..8] == block;
    }
  }

  /** Decoding the symbols of one group gives the group back. */
  lemma DecodeEncodedBlock(g: seq<byte>)
    requires |g| == 5
    ensures DecodeBlock(EncodeGroup(g)) == Some(g)
  {
    var v := Unpack(g);
    var block := EncodeGroup(g);
    assert block[7] != '=';
    assert PadCount(block) == 0;
    assert block[..8] == block;
    ValuesOfGroup(g);
    assert v + ZeroSymbols(0) == v;
    PackUnpack(g);
    assert Pack(v)[..5] == g;
  }

  /** The symbols of a group read back as its 5-bit values. */
  lemma ValuesOfGroup(g: seq<byte>)
    requires |g| == 5
    ensures Values(EncodeGroup(g)) == Some(Unpack(g))
  {
    var v := Unpack(g);
    var block := EncodeGroup(g);
    assert forall i :: 0 <= i < 8 ==> B32Value(block[i]) == Some(v[i]);
    var vs := Values(block).value;
    assert forall i :: 0 <= i < 8 ==> vs[i] == v[i];
    assert vs == v;
  }

  lemma ModAdd8(n: nat)
    requires n % 8 == 0
    ensures (n + 8) % 8 == 0
  {
  }

  /** Decoding a block followed by more blocks. */
  lemma Base32DecodeCons(block: string, rest: string, x: seq<byte>, y: seq<byte>)
    requires |block| == 8 && DecodeBlock(block) == Some(x) && Base32Decode(rest) == Some(y)
    ensures Base32Decode(block + rest) == Some(x + y)
  {
    var s := block + rest;
    assert |rest| % 8 == 0;
    ModAdd8(|rest|);
    assert s[..8] == block;
    assert s[8..] == rest;
  }

  /** Base32 decoding inverts the encoding. */
  lemma {:induction false} Base32RoundTrip(b: seq<byte>)
    requires |b| % 5 == 0
    ensures Base32Decode(Base32Encode(b)) == Some(b)
    decreases |b|
  {
    if b != [] {
      Base32RoundTrip(b[5..]);
      DecodeEncodedBlock(b[..5]);
      Base32DecodeCons(EncodeGroup(b[..5]), Base32Encode(b[5..]), b[..5], b[5..]);
      assert b[..5] + b[5..] == b;
    }
  }

  /** The encoding uses upper-case letters and digits only. */
  lemma {:induction false} Base32EncodeAlphabet(b: seq<byte>)
    requires |b| % 5 == 0
    ensures forall i :: 0 <= i < |Base32Encode(b)| ==>
      'A' <= Base32Encode(b)[i] <= 'Z' || '2' <= Base32Encode(b)[i] <= '7'
    decreases |b|
  {
    if b != [] {
      Base32EncodeAlphabet(b[5..]);
      var s := Base32Encode(b);
      assert forall i :: 8 <= i < |s| ==> s[i] == Base32Encode(b[5..])[i - 8];
    }
  }
}
