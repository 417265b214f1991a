/** Fixed-width unsigned integers and their big-endian byte encodings
    (`to_be_bytes` / `from_be_bytes` in the Rust source). */
module Bytes {

  type byte = x: int | 0 <= x < 0x100
  type u16 = x: int | 0 <= x < 0x1_0000
  type u32 = x: int | 0 <= x < 0x1_0000_0000
  type u64 = x: int | 0 <= x < 0x1_0000_0000_0000_0000

  function Min(a: int, b: int): int
  {
    if a <= b then a else b
  }

  /** Fixed-size byte arrays of the source (`[u8; 8]`, `[u8; 19]`, `[u8; 20]`). */
  type Bytes8 = s: seq<byte> | |s| == 8 witness Zeros(8)
  type Bytes19 = s: seq<byte> | |s| == 19 witness Zeros(19)
  type Bytes20 = s: seq<byte> | |s| == 20 witness Zeros(20)

  /** The bytes of an ASCII string. */
  function Ascii(s: string): (r: seq<byte>)
    requires forall i :: 0 <= i < |s| ==> s[i] as int < 0x80
    ensures |r| == |s|
  {
    seq(|s|, i requires 0 <= i < |s| => s[i] as int)
  }

  /** The number whose big-endian representation is `s` (`from_be_bytes`). */
  function BigEndian(s: seq<byte>): nat
  {
    if s == [] then 0 else BigEndian(s[..|s| - 1]) * 0x100 + s[|s| - 1]
  }

  /** `n` zero bytes. */
  function Zeros(n: nat): (z: seq<byte>)
    ensures |z| == n
    ensures forall i :: 0 <= i < n ==> z[i] == 0
  {
    seq(n, _ => 0)
  }

  /** Appending a byte shifts the value left by eight bits. */
  lemma BigEndianSnoc(s: seq<byte>, b: byte)
    ensures BigEndian(s + [b]) == BigEndian(s) * 0x100 + b
  {
    assert (s + [b])[..|s|] == s;
  }

  /** Zero bytes read as zero. */
  lemma {:induction false} BigEndianZeros(n: nat)
    ensures BigEndian(Zeros(n)) == 0
  {
    if n > 0 {
      assert Zeros(n)[..n - 1] == Zeros(n - 1);
      BigEndianZeros(n - 1);
    }
  }

  /** `u16::to_be_bytes`. */
  function U16BE(x: u16): (r: seq<byte>)
    ensures |r| == 2 && BigEndian(r) == x
  {
    var hi: byte, lo: byte := x / 0x100, x % 0x100;
    BigEndianSnoc([], hi);
    BigEndianSnoc([hi], lo);
    assert [hi] + [lo] == [hi, lo];
    [hi, lo]
  }

  /** `u32::to_be_bytes`. */
  function U32BE(x: u32): (r: seq<byte>)
    ensures |r| == 4 && BigEndian(r) == x
  {
    var q1 := x / 0x100;
    var q2 := q1 / 0x100;
    var b0: byte, b1: byte, b2: byte, b3: byte := q2 / 0x100, q2 % 0x100, q1 % 0x100, x % 0x100;
    BigEndianSnoc([], b0);
    BigEndianSnoc([b0], b1);
    BigEndianSnoc([b0, b1], b2);
    BigEndianSnoc([b0, b1, b2], b3);
    assert [b0] == [] + [b0];
    assert [b0, b1] == [b0] + [b1];
    assert [b0, b1, b2] == [b0, b1] + [b2];
    assert [b0, b1, b2, b3] == [b0, b1, b2] + [b3];
    [b0, b1, b2, b3]
  }

  /** Big-endian encoding is injective on four-byte strings, so `U32BE`
      inverts `from_be_bytes` there. */
  lemma U32BEOfBigEndian(s: seq<byte>)
    requires |s| == 4
    ensures BigEndian(s) < 0x1_0000_0000
    ensures U32BE(BigEndian(s)) == s
  {
    BigEndian4(s);
    var hi := s[0] as int * 0x100 + s[1] as int;
    var mid := hi * 0x100 + s[2] as int;
    Div256(BigEndian(s), mid, s[3]);
    Div256(mid, hi, s[2]);
    Div256(hi, s[0], s[1]);
    assert s == [s[0], s[1], s[2], s[3]];
  }

  /** The value of four bytes, most significant first. */
  lemma BigEndian4(s: seq<byte>)
    requires |s| == 4
    ensures BigEndian(s) == ((s[0] as int * 0x100 + s[1] as int) * 0x100 + s[2] as int) * 0x100 + s[3] as int
  {
    assert s[..3][..2] == s[..2] && s[..2][..1] == s[..1] && s[..1][..0] == [];
    assert BigEndian(s[..1]) == s[0];
    assert BigEndian(s[..2]) == BigEndian(s[..1]) * 0x100 + s[1];
    assert BigEndian(s[..3]) == BigEndian(s[..2]) * 0x100 + s[2];
  }

  /** Quotient and remainder by 256 are unique. */
  lemma Div256(v: int, q: int, r: int)
    requires v == q * 0x100 + r && 0 <= r < 0x100
    ensures v / 0x100 == q && v % 0x100 == r
  {
  }

  /** Two-byte counterpart of `U32BEOfBigEndian`. */
  lemma U16BEOfBigEndian(s: seq<byte>)
    requires |s| == 2
    ensures BigEndian(s) == s[0] as int * 0x100 + s[1] as int
    ensures BigEndian(s) < 0x1_0000
    ensures U16BE(BigEndian(s)) == s
  {
    BigEndianSnoc([], s[0]);
    BigEndianSnoc([s[0]], s[1]);
    assert [s[0]] == [] + [s[0]];
    assert s == [s[0]] + [s[1]];
    Div256(BigEndian(s), s[0], s[1]);
  }
}
